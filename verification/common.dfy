/**
 * Small shared vocabulary for the wizard model: optional values, the
 * whitespace handling of `String.prototype.trim`, distinctness of a list of
 * values (the `values.length !== new Set(values).size` idiom) and the
 * clipping rules of `Array.prototype.slice`.
 */
module Common {

  /** A value that may be absent (`null`/`undefined` in the source). */
  datatype Option<T> = None | Some(value: T)

  // ---------------------------------------------------------------------------
  // Whitespace, trim and blank strings
  // ---------------------------------------------------------------------------

  /** The characters `trim()` strips: ASCII white space, line terminators,
      no-break space, the byte-order mark and the Unicode space separators. */
  predicate IsWhitespace(c: char) {
    || c == ' ' || c == '\t' || c == '\n' || c == '\r'
    || c == '\U{000B}' || c == '\U{000C}'
    || c == '\U{00A0}' || c == '\U{FEFF}' || c == '\U{1680}'
    || ('\U{2000}' <= c <= '\U{200A}')
    || c == '\U{2028}' || c == '\U{2029}' || c == '\U{202F}'
    || c == '\U{205F}' || c == '\U{3000}'
  }

  /** Drops leading white space. */
  function TrimStart(s: string): (r: string)
    ensures |r| <= |s| && r == s[|s| - |r|..]
    ensures |r| > 0 ==> !IsWhitespace(r[0])
    ensures forall i :: 0 <= i < |s| - |r| ==> IsWhitespace(s[i])
  {
    if |s| > 0 && IsWhitespace(s[0]) then TrimStart(s[1..]) else s
  }

  /** Drops trailing white space. */
  function TrimEnd(s: string): (r: string)
    ensures |r| <= |s| && r == s[..|r|]
    ensures |r| > 0 ==> !IsWhitespace(r[|r| - 1])
    ensures forall i :: |r| <= i < |s| ==> IsWhitespace(s[i])
  {
    if |s| > 0 && IsWhitespace(s[|s| - 1]) then TrimEnd(s[..|s| - 1]) else s
  }

  /** `s.trim()`: what is left once white space is dropped at both ends. */
  function Trim(s: string): (r: string)
    ensures |r| <= |s|
    ensures |r| > 0 ==> !IsWhitespace(r[0]) && !IsWhitespace(r[|r| - 1])
  {
    TrimEnd(TrimStart(s))
  }

  /** The source's blank test `!id || id.trim() === ''`: empty or white space
      only (equivalently, `Trim` leaves nothing, see `BlankIffTrimEmpty`). */
  predicate IsBlank(s: string) {
    forall i :: 0 <= i < |s| ==> IsWhitespace(s[i])
  }

  /** A string is blank exactly when trimming it leaves the empty string. */
  lemma BlankIffTrimEmpty(s: string)
    ensures IsBlank(s) <==> Trim(s) == ""
  {
    var a := TrimStart(s);
    if !IsBlank(s) {
      var i :| 0 <= i < |s| && !IsWhitespace(s[i]);
      assert |s| - |a| <= i;
      assert a[i - (|s| - |a|)] == s[i];
      var r := TrimEnd(a);
      assert i - (|s| - |a|) < |r|;
    }
  }

  // ---------------------------------------------------------------------------
  // Distinctness
  // ---------------------------------------------------------------------------

  /** `new Set(xs)`. */
  function Elements<T(==)>(xs: seq<T>): set<T> {
    if xs == [] then {} else {xs[0]} + Elements(xs[1..])
  }

  /** The source's duplicate test: the list is longer than the set of its values. */
  predicate HasRepeat<T(==)>(xs: seq<T>) {
    |xs| != |Elements(xs)|
  }

  /** `Elements` holds exactly the values of the list. */
  lemma {:induction false} ElementsMembers<T>(xs: seq<T>, x: T)
    ensures x in Elements(xs) <==> x in xs
  {
    if xs != [] {
      ElementsMembers(xs[1..], x);
      assert xs == [xs[0]] + xs[1..];
    }
  }

  /** Reference notion: every value occurs at most once. */
  ghost predicate Distinct<T(!new)>(xs: seq<T>) {
    forall v :: multiset(xs)[v] <= 1
  }

  /** The set built from a list is never larger than the list, and is exactly
      as large precisely when the list holds no value twice. */
  lemma {:induction false} ElementsSize<T(!new)>(xs: seq<T>)
    ensures |Elements(xs)| <= |xs|
    ensures |Elements(xs)| == |xs| <==> Distinct(xs)
  {
    if |xs| == 0 {
      assert Elements(xs) == {};
    } else {
      var a, rest := xs[0], xs[1..];
      assert xs == [a] + rest;
      ElementsSize(rest);
      assert Elements(xs) == {a} + Elements(rest);
      ElementsMembers(rest, a);
      assert multiset(xs) == multiset{a} + multiset(rest);
      if a in rest {
        assert Elements(xs) == Elements(rest);
        assert multiset(xs)[a] >= 2;
      } else {
        assert a !in Elements(rest);
        assert |Elements(xs)| == |Elements(rest)| + 1;
        assert multiset(rest)[a] == 0;
        if Distinct(rest) {
          forall v ensures multiset(xs)[v] <= 1 {
            if v == a {
              assert multiset(xs)[v] == 1;
            } else {
              assert multiset(xs)[v] == multiset(rest)[v];
            }
          }
        } else {
          var v :| multiset(rest)[v] > 1;
          assert multiset(xs)[v] >= multiset(rest)[v];
        }
      }
    }
  }

  /** `HasRepeat` is the negation of the reference `Distinct`. */
  lemma RepeatIffNotDistinct<T(!new)>(xs: seq<T>)
    ensures HasRepeat(xs) <==> !Distinct(xs)
  {
    ElementsSize(xs);
  }

  /** Removing position `k + 1` of `[h] + xs` is removing position `k` of `xs`. */
  lemma ConsSplice<T>(h: T, xs: seq<T>, k: nat)
    requires k < |xs|
    ensures ([h] + xs)[..k + 1] + ([h] + xs)[k + 2..] == [h] + (xs[..k] + xs[k + 1..])
  {
    assert ([h] + xs)[..k + 1] == [h] + xs[..k];
    assert ([h] + xs)[k + 2..] == xs[k + 1..];
  }

  // ---------------------------------------------------------------------------
  // Array.prototype.slice
  // ---------------------------------------------------------------------------

  /** A relative slice bound of `slice`: negative counts from the end, and the
      result is clipped to `[0, len]`. */
  function SliceBound(k: int, len: nat): (r: nat)
    ensures r <= len
    ensures 0 <= k <= len ==> r == k
    ensures k > len ==> r == len
    ensures k < 0 ==> r == if len + k < 0 then 0 else len + k
  {
    if k < 0 then (if len + k < 0 then 0 else len + k)
    else if k > len then len
    else k
  }

  /** `xs.slice(start, end)`. */
  function JsSlice<T>(xs: seq<T>, start: int, end: int): (r: seq<T>)
    ensures 0 <= start <= end <= |xs| ==> r == xs[start..end]
    ensures 0 <= start <= |xs| <= end ==> r == xs[start..]
    ensures end <= start && 0 <= end ==> r == []
    ensures |r| <= |xs|
  {
    var s := SliceBound(start, |xs|);
    var e := SliceBound(end, |xs|);
    if e <= s then [] else xs[s..e]
  }
}
