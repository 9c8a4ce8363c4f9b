/** Strings as the catalog uses them: Java's `null` reference, ASCII lower-casing
    (standing in for `String.toLowerCase`), case-insensitive equality and the
    substring test behind `String.contains`. */
module Text {

  /** A Java reference that may be `null`. */
  datatype Nullable<+T> = Null | Ref(value: T)

  /** Lower-cases one ASCII letter and leaves every other character alone. */
  function LowerChar(c: char): char {
    if 'A' <= c <= 'Z' then (c as int + 32) as char else c
  }

  /** `s.toLowerCase()`, character by character. */
  function Lower(s: string): (r: string)
    ensures |r| == |s|
    ensures forall i :: 0 <= i < |s| ==> r[i] == LowerChar(s[i])
  {
    if s == [] then [] else [LowerChar(s[0])] + Lower(s[1..])
  }

  /** Lower-casing twice is lower-casing once. */
  lemma LowerIdempotent(s: string)
    ensures Lower(Lower(s)) == Lower(s)
  {
    var l := Lower(s);
    assert forall i :: 0 <= i < |l| ==> LowerChar(l[i]) == l[i];
  }

  /** `a.toLowerCase().equals(b.toLowerCase())`. */
  predicate EqualsIgnoreCase(a: string, b: string) {
    Lower(a) == Lower(b)
  }

  /** `p` occurs in `t` starting at position `k`. */
  predicate OccursAt(t: string, p: string, k: int) {
    0 <= k && k + |p| <= |t| && t[k..k + |p|] == p
  }

  /** `t.contains(p)`: `p` is a contiguous piece of `t`; the empty string is in every string. */
  function Contains(t: string, p: string): (r: bool)
    ensures r <==> exists k :: OccursAt(t, p, k)
    decreases |t|
  {
    if |p| > |t| then false
    else if t[..|p|] == p then
      assert OccursAt(t, p, 0);
      true
    else
      var r := Contains(t[1..], p);
      if r then
        var k :| OccursAt(t[1..], p, k);
        assert OccursAt(t, p, k + 1) by {
          assert t[1..][k..k + |p|] == t[k + 1..k + 1 + |p|];
        }
        r
      else
        forall k | OccursAt(t, p, k)
          ensures OccursAt(t[1..], p, k - 1)
        {
          assert k != 0;
          assert t[1..][k - 1..k - 1 + |p|] == t[k..k + |p|];
        }
        r
  }

  /** Every string contains itself and the empty string. */
  lemma ContainsSelfAndEmpty(t: string)
    ensures Contains(t, t) && Contains(t, "")
  {
    assert OccursAt(t, t, 0);
    assert OccursAt(t, "", 0);
  }

  /** A character of the Basic Multilingual Plane: one UTF-16 code unit in Java. */
  predicate IsBmp(c: char) {
    (c as int) < 0x1_0000
  }

  /** `s.length()`: Java counts UTF-16 code units, so a character outside the Basic
      Multilingual Plane counts twice. */
  function JavaLength(s: string): (r: nat)
    ensures |s| <= r <= 2 * |s|
    ensures r == |s| <==> forall i :: 0 <= i < |s| ==> IsBmp(s[i])
    ensures r == 1 <==> |s| == 1 && IsBmp(s[0])
    decreases |s|
  {
    if s == [] then 0
    else
      var rest := JavaLength(s[1..]);
      assert forall i :: 1 <= i < |s| ==> s[i] == s[1..][i - 1];
      (if IsBmp(s[0]) then 1 else 2) + rest
  }

  /** `s.charAt(0)` as a UTF-16 code unit: the character itself inside the Basic Multilingual
      Plane, the high surrogate of its pair outside it. */
  function FirstUnit(s: string): (r: int)
    requires s != []
    ensures IsBmp(s[0]) ==> r == s[0] as int
    ensures !IsBmp(s[0]) ==> 0xD800 <= r < 0xDC00
  {
    var c := s[0] as int;
    if c < 0x1_0000 then c else 0xD800 + (c - 0x1_0000) / 0x400
  }

  /** When either string starts inside the Basic Multilingual Plane, comparing first code
      units is comparing first characters: a surrogate is never a character on its own. */
  lemma FirstUnitsAgree(s: string, t: string)
    requires s != [] && t != [] && (IsBmp(s[0]) || IsBmp(t[0]))
    ensures FirstUnit(s) == FirstUnit(t) <==> s[0] == t[0]
  {
  }
}
