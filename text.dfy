/**
 * Text operations the search box relies on: ASCII lower-casing
 * (`String.prototype.toLowerCase` restricted to A-Z) and substring search
 * (`String.prototype.includes`). Strings are sequences of characters.
 */
module Text {

  /** Lower-cases one character: 'A'..'Z' map to 'a'..'z', everything else is kept. */
  function LowerChar(c: char): char
  {
    if 'A' <= c <= 'Z' then (c as int + 32) as char else c
  }

  predicate IsUpper(c: char)
  {
    'A' <= c <= 'Z'
  }

  /** Lower-cases a string character by character. */
  function ToLower(s: string): (r: string)
    ensures |r| == |s|
  {
    if s == [] then [] else [LowerChar(s[0])] + ToLower(s[1..])
  }

  lemma {:induction false} ToLowerAt(s: string, i: nat)
    requires i < |s|
    ensures ToLower(s)[i] == LowerChar(s[i])
  {
    if i > 0 {
      ToLowerAt(s[1..], i - 1);
    }
  }

  /** Lower-casing commutes with taking a slice. */
  lemma {:induction false} ToLowerSlice(s: string, lo: nat, hi: nat)
    requires lo <= hi <= |s|
    ensures ToLower(s)[lo..hi] == ToLower(s[lo..hi])
  {
    var a, b := ToLower(s)[lo..hi], ToLower(s[lo..hi]);
    forall k | 0 <= k < |a|
      ensures a[k] == b[k]
    {
      ToLowerAt(s, lo + k);
      ToLowerAt(s[lo..hi], k);
      assert a[k] == ToLower(s)[lo + k] && s[lo..hi][k] == s[lo + k];
    }
    assert a == b;
  }

  /** A lower-cased string holds no upper-case letter. */
  lemma {:induction false} ToLowerHasNoUpper(s: string)
    ensures forall i :: 0 <= i < |ToLower(s)| ==> !IsUpper(ToLower(s)[i])
  {
    forall i | 0 <= i < |ToLower(s)|
      ensures !IsUpper(ToLower(s)[i])
    {
      ToLowerAt(s, i);
    }
  }

  /** Lower-casing twice is lower-casing once. */
  lemma {:induction false} ToLowerIdempotent(s: string)
    ensures ToLower(ToLower(s)) == ToLower(s)
  {
    forall i | 0 <= i < |s|
      ensures ToLower(ToLower(s))[i] == ToLower(s)[i]
    {
      ToLowerAt(s, i);
      ToLowerAt(ToLower(s), i);
    }
  }

  predicate StartsWith(s: string, t: string)
  {
    |t| <= |s| && s[..|t|] == t
  }

  /**
   * `s.includes(t)`: t occurs somewhere in s. The empty string occurs
   * everywhere, and nothing longer than s occurs in it; IncludesIffOccurs
   * gives the exact meaning.
   */
  predicate Includes(s: string, t: string)
    ensures Includes(s, t) ==> |t| <= |s|
    ensures t == [] ==> Includes(s, t)
  {
    StartsWith(s, t) || (s != [] && Includes(s[1..], t))
  }

  /** t occurs in s starting at position i. */
  predicate OccursAt(s: string, t: string, i: int)
  {
    0 <= i && i + |t| <= |s| && s[i..i + |t|] == t
  }

  /** An occurrence at position i is found by the recursive search. */
  lemma {:induction false} OccursIncluded(s: string, t: string, i: int)
    requires OccursAt(s, t, i)
    ensures Includes(s, t)
  {
    if i > 0 {
      assert s[1..][i - 1..i - 1 + |t|] == s[i..i + |t|];
      OccursIncluded(s[1..], t, i - 1);
    }
  }

  /** The recursive search only succeeds at an actual occurrence. */
  lemma {:induction false} IncludedOccurs(s: string, t: string) returns (i: nat)
    requires Includes(s, t)
    ensures OccursAt(s, t, i)
  {
    if StartsWith(s, t) {
      i := 0;
    } else {
      var j := IncludedOccurs(s[1..], t);
      assert s[1..][j..j + |t|] == s[j + 1..j + 1 + |t|];
      i := j + 1;
    }
  }

  /** The recursive search agrees with "t occurs at some position of s". */
  lemma {:induction false} IncludesIffOccurs(s: string, t: string)
    ensures Includes(s, t) <==> exists i :: OccursAt(s, t, i)
  {
    if Includes(s, t) {
      var i := IncludedOccurs(s, t);
    }
    forall i | OccursAt(s, t, i) ensures Includes(s, t) {
      OccursIncluded(s, t, i);
    }
  }

  /** If t occurs in s, then lower-cased t occurs in lower-cased s. */
  lemma {:induction false} IncludesToLower(s: string, t: string)
    requires Includes(s, t)
    ensures Includes(ToLower(s), ToLower(t))
  {
    var i := IncludedOccurs(s, t);
    ToLowerSlice(s, i, i + |t|);
    OccursIncluded(ToLower(s), ToLower(t), i);
  }
}
