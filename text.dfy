/**
 * The string primitives the controllers rely on, over `seq<char>`:
 * PHP's `strtolower`, `ucfirst`, `trim` (as used by `filled` and the
 * `required` rule) and `explode(' ', ...)`, and SQL's `LIKE '%term%'`
 * as a plain substring test. Case mapping is ASCII only.
 */
module Text {

  /** ASCII lower-casing of one character; every other character is kept. */
  function LowerChar(c: char): (r: char)
    ensures 'A' <= c <= 'Z' ==> r as int == c as int + 32
    ensures !('A' <= c <= 'Z') ==> r == c
  {
    if 'A' <= c <= 'Z' then (c as int + 32) as char else c
  }

  /** ASCII upper-casing of one character; every other character is kept. */
  function UpperChar(c: char): (r: char)
    ensures 'a' <= c <= 'z' ==> r as int == c as int - 32
    ensures !('a' <= c <= 'z') ==> r == c
  {
    if 'a' <= c <= 'z' then (c as int - 32) as char else c
  }

  /** True when `s` holds no ASCII capital letter. */
  predicate NoCapitals(s: string) {
    forall i :: 0 <= i < |s| ==> !('A' <= s[i] <= 'Z')
  }

  /** `strtolower`: every character lower-cased, length kept. */
  function Lower(s: string): (r: string)
    ensures |r| == |s|
    ensures forall i :: 0 <= i < |s| ==> r[i] == LowerChar(s[i])
    ensures NoCapitals(r)
  {
    seq(|s|, i requires 0 <= i < |s| => LowerChar(s[i]))
  }

  /** `ucfirst`: the first character upper-cased, the rest untouched. */
  function UcFirst(s: string): (r: string)
    ensures |r| == |s|
    ensures |s| > 0 ==> r[0] == UpperChar(s[0]) && r[1..] == s[1..]
  {
    if s == [] then [] else [UpperChar(s[0])] + s[1..]
  }

  /** Lower-casing undoes `ucfirst` on any string with no capitals, every enum value included. */
  lemma LowerUndoesUcFirst(s: string)
    requires NoCapitals(s)
    ensures Lower(UcFirst(s)) == s
  {
    if s != [] {
      var r := Lower(UcFirst(s));
      assert r[0] == s[0];
      forall i | 0 <= i < |s| ensures r[i] == s[i] {
      }
    }
  }

  /** The characters PHP's `trim` strips by default. */
  predicate IsTrimmed(c: char) {
    c == ' ' || c == '\t' || c == '\n' || c == '\r' || c == '\0' || c == '\U{000B}'
  }

  /** True when `trim(s) === ''`: the string is empty or only whitespace. */
  predicate IsBlank(s: string) {
    forall i :: 0 <= i < |s| ==> IsTrimmed(s[i])
  }

  /** SQL `h LIKE '%n%'` with no wildcard in `n`: `n` occurs somewhere in `h`. */
  predicate Contains(h: string, n: string)
    decreases |h|
  {
    n <= h || (h != [] && Contains(h[1..], n))
  }

  /** Every string contains every one of its slices. */
  lemma {:induction false} ContainsSlice(h: string, i: nat, j: nat)
    requires i <= j <= |h|
    ensures Contains(h, h[i..j])
    decreases i
  {
    if i == 0 {
      assert h[i..j] <= h;
    } else {
      assert forall k :: 0 <= k < j - i ==> h[1..][i - 1..j - 1][k] == h[i..j][k];
      assert h[1..][i - 1..j - 1] == h[i..j];
      ContainsSlice(h[1..], i - 1, j - 1);
    }
  }

  /** A string found by `Contains` really is a slice of `h`, starting at `i`. */
  lemma {:induction false} ContainsIsSlice(h: string, n: string) returns (i: nat)
    requires Contains(h, n)
    ensures i + |n| <= |h| && h[i..i + |n|] == n
    decreases |h|
  {
    if n <= h {
      i := 0;
    } else {
      var j := ContainsIsSlice(h[1..], n);
      assert h[j + 1..j + 1 + |n|] == h[1..][j..j + |n|];
      i := j + 1;
    }
  }

  /** `implode(' ', ts)`: the pieces glued back with single spaces. */
  function Join(ts: seq<string>): string
    requires |ts| >= 1
  {
    if |ts| == 1 then ts[0] else ts[0] + " " + Join(ts[1..])
  }

  /**
   * `explode(' ', s)`: the pieces of `s` between single spaces. There is
   * always at least one piece, no piece holds a space, and gluing the
   * pieces back with single spaces gives `s` again. Two spaces in a row
   * give an empty piece.
   */
  function Explode(s: string): (ts: seq<string>)
    ensures |ts| >= 1
    ensures forall k :: 0 <= k < |ts| ==> ' ' !in ts[k]
    ensures Join(ts) == s
    decreases |s|
  {
    if s == [] then [""]
    else
      var rest := Explode(s[1..]);
      if s[0] == ' ' then
        assert s == " " + Join(rest);
        [""] + rest
      else
        var ts := [[s[0]] + rest[0]] + rest[1..];
        assert ts[1..] == rest[1..];
        assert |rest| > 1 ==> Join(rest) == rest[0] + " " + Join(rest[1..]);
        assert s == [s[0]] + Join(rest);
        ts
  }

  /** A space-free prefix is glued onto the first piece of what follows it. */
  lemma {:induction false} ExplodeSpaceFreePrefix(a: string, s: string)
    requires ' ' !in a
    ensures Explode(a + s) == [a + Explode(s)[0]] + Explode(s)[1..]
    decreases |a|
  {
    if a != [] {
      assert (a + s)[1..] == a[1..] + s;
      assert a[0] != ' ';
      ExplodeSpaceFreePrefix(a[1..], s);
      assert [a[0]] + (a[1..] + Explode(s)[0]) == a + Explode(s)[0];
    } else {
      assert a + s == s;
      assert a + Explode(s)[0] == Explode(s)[0];
      assert [Explode(s)[0]] + Explode(s)[1..] == Explode(s);
    }
  }

  /** `explode` undoes `implode` when no piece holds a space. */
  lemma {:induction false} ExplodeJoin(ts: seq<string>)
    requires |ts| >= 1
    requires forall k :: 0 <= k < |ts| ==> ' ' !in ts[k]
    ensures Explode(Join(ts)) == ts
    decreases |ts|
  {
    if |ts| == 1 {
      ExplodeSpaceFreePrefix(ts[0], "");
      assert ts[0] + "" == ts[0];
    } else {
      var tail := " " + Join(ts[1..]);
      ExplodeJoin(ts[1..]);
      assert tail[1..] == Join(ts[1..]);
      assert Explode(tail) == [""] + ts[1..];
      ExplodeSpaceFreePrefix(ts[0], tail);
      assert ts[0] + tail == Join(ts);
      assert ts[0] + "" == ts[0];
      assert [ts[0]] + ts[1..] == ts;
    }
  }
}
