/** The string operations the services rely on: ASCII lower-casing, substring
    containment and the ASCII digit class. */
module Text {

  /** Maps 'A'..'Z' to 'a'..'z' and leaves every other character alone. */
  function LowerChar(c: char): char {
    if 'A' <= c <= 'Z' then (c as int - 'A' as int + 'a' as int) as char else c
  }

  predicate IsAsciiDigit(c: char) {
    '0' <= c <= '9'
  }

  /** ASCII lower-casing: `strings.ToLower`, and Java's `toLowerCase` under a
      locale that lowers the ASCII letters to ASCII letters. */
  function ToLower(s: string): (r: string)
    ensures |r| == |s|
    ensures forall i :: 0 <= i < |s| ==> r[i] == LowerChar(s[i])
  {
    if s == [] then [] else [LowerChar(s[0])] + ToLower(s[1..])
  }

  /** `part` occurs in `s` starting at index `i`. */
  predicate OccursAt(s: string, part: string, i: int) {
    0 <= i && i + |part| <= |s| && s[i..i + |part|] == part
  }

  /** `String.contains` / `strings.Contains`: `part` occurs somewhere in `s`. */
  predicate Contains(s: string, part: string) {
    exists i :: 0 <= i <= |s| - |part| && OccursAt(s, part, i)
  }

  /** Lower-casing commutes with taking a slice. */
  lemma ToLowerSlice(s: string, i: int, j: int)
    requires 0 <= i <= j <= |s|
    ensures ToLower(s)[i..j] == ToLower(s[i..j])
  {
    var lowered, part := ToLower(s), s[i..j];
    var a, b := lowered[i..j], ToLower(part);
    forall k | 0 <= k < j - i ensures a[k] == b[k] {
      assert a[k] == lowered[i + k] == LowerChar(s[i + k]);
      assert b[k] == LowerChar(part[k]);
    }
    assert a == b;
  }

  /** Lower-casing twice is lower-casing once. */
  lemma ToLowerIdempotent(s: string)
    ensures ToLower(ToLower(s)) == ToLower(s)
  {
    var once := ToLower(s);
    forall k | 0 <= k < |s| ensures ToLower(once)[k] == once[k] {
      assert LowerChar(LowerChar(s[k])) == LowerChar(s[k]);
    }
  }

  /** An occurrence survives lower-casing both strings. */
  lemma ContainsLowered(s: string, part: string)
    requires Contains(s, part)
    ensures Contains(ToLower(s), ToLower(part))
  {
    var i :| 0 <= i <= |s| - |part| && OccursAt(s, part, i);
    ToLowerSlice(s, i, i + |part|);
    assert OccursAt(ToLower(s), ToLower(part), i);
  }

  /** A string in which the first character of `part` never appears does not contain `part`. */
  lemma MissingFirstCharNotContained(s: string, part: string)
    requires |part| > 0
    requires forall i :: 0 <= i < |s| ==> s[i] != part[0]
    ensures !Contains(s, part)
  {
    forall i | 0 <= i <= |s| - |part| ensures !OccursAt(s, part, i) {
      assert s[i..i + |part|][0] == s[i] != part[0];
    }
  }
}
