/** The one string operation the authorization layer performs on a request
    header: JavaScript's `String.prototype.replace` with a string pattern
    and an empty replacement, which removes the FIRST occurrence of the
    pattern wherever it stands (not only at the start). */
module Text {

  /** `p` occurs in `s` starting at position `i`. */
  predicate OccursAt(s: string, p: string, i: int) {
    0 <= i && i + |p| <= |s| && s[i..i + |p|] == p
  }

  /** Position of the first occurrence of `p` in `s`, or -1 when there is none
      (`String.prototype.indexOf`). */
  function IndexOf(s: string, p: string): (r: int)
    ensures -1 <= r
    ensures r >= 0 ==> OccursAt(s, p, r) && forall j :: 0 <= j < r ==> !OccursAt(s, p, j)
    ensures r == -1 ==> forall j :: !OccursAt(s, p, j)
    decreases |s|
  {
    if |s| < |p| then
      -1
    else if s[..|p|] == p then
      0
    else
      var k := IndexOf(s[1..], p);
      ShiftOccurs(s, p);
      assert !OccursAt(s, p, 0);
      assert forall j :: j >= 1 ==> (OccursAt(s, p, j) <==> OccursAt(s[1..], p, j - 1));
      if k < 0 then -1 else k + 1
  }

  /** An occurrence in `s[1..]` is an occurrence in `s` one position later. */
  lemma ShiftOccurs(s: string, p: string)
    requires |s| > 0
    ensures forall j :: 0 <= j ==> (OccursAt(s[1..], p, j) <==> OccursAt(s, p, j + 1))
  {
  }

  /** `s.replace(p, '')`. */
  function RemoveFirst(s: string, p: string): (r: string)
    ensures IndexOf(s, p) == -1 ==> r == s
    ensures IndexOf(s, p) >= 0 ==>
              var i := IndexOf(s, p); |r| == |s| - |p| && s == r[..i] + p + r[i..]
  {
    var i := IndexOf(s, p);
    if i < 0 then s else s[..i] + s[i + |p|..]
  }

  /** The prefix the authentication middleware strips from the header. */
  const Bearer: string := "Bearer "

  /** A header that starts with the prefix loses exactly that prefix. */
  lemma StripLeadingBearer(t: string)
    ensures RemoveFirst(Bearer + t, Bearer) == t
  {
  }

  /** A string without a space has no occurrence of the prefix, so it is left as is. */
  lemma StripNoSpace(t: string)
    requires ' ' !in t
    ensures RemoveFirst(t, Bearer) == t
  {
  }

  /** The prefix is removed wherever it first occurs, not only at the start:
      a header `a + "Bearer " + t` whose part `a` holds no 'B' becomes `a + t`
      ("Token Bearer abc" becomes "Token abc"). */
  lemma StripInside(a: string, t: string)
    requires 'B' !in a
    ensures RemoveFirst(a + Bearer + t, Bearer) == a + t
  {
    var s := a + Bearer + t;
    forall j | 0 <= j < |a| ensures !OccursAt(s, Bearer, j) {
      assert s[j..j + |Bearer|][0] == s[j] == a[j];
    }
    assert s[|a|..|a| + |Bearer|] == Bearer;
    assert OccursAt(s, Bearer, |a|);
    var i := IndexOf(s, Bearer);
    assert i == |a|;
    assert s[..i] == a && s[i + |Bearer|..] == t;
  }
}
