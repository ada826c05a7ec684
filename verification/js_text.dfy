/** JavaScript string and value facts that the page logic relies on: values the DOM or
    the preference store may not supply, and `String.prototype.trim`. */
module JsText {

  /** A value that may be missing: `null` from `localStorage.getItem` or
      `getAttribute`, or an `undefined` data attribute. */
  datatype Option<+T> = None | Some(value: T)

  /** The characters ECMAScript classifies as WhiteSpace or LineTerminator: exactly the
      set that `trim()` strips and that the regular-expression class `\s` matches. */
  predicate IsJsSpace(c: char) {
    var n := c as int;
    || n == 0x09 || n == 0x0A || n == 0x0B || n == 0x0C || n == 0x0D || n == 0x20
    || n == 0xA0 || n == 0x1680 || (0x2000 <= n <= 0x200A)
    || n == 0x2028 || n == 0x2029 || n == 0x202F || n == 0x205F || n == 0x3000
    || n == 0xFEFF
  }

  /** Every character of `s` is whitespace (vacuously true of ""). */
  predicate AllSpace(s: string) {
    forall k | 0 <= k < |s| :: IsJsSpace(s[k])
  }

  /** Strips leading whitespace: the result is a suffix of `s`, what was cut off is
      all whitespace, and the result does not start with whitespace. */
  function TrimStart(s: string): (r: string)
    ensures |r| <= |s| && r == s[|s| - |r|..]
    ensures AllSpace(s[..|s| - |r|])
    ensures r != [] ==> !IsJsSpace(r[0])
  {
    if s != [] && IsJsSpace(s[0]) then
      var r := TrimStart(s[1..]);
      assert s[..|s| - |r|] == [s[0]] + s[1..][..|s| - 1 - |r|];
      r
    else
      s
  }

  /** Strips trailing whitespace: the result is a prefix of `s`, what was cut off is
      all whitespace, and the result does not end with whitespace. */
  function TrimEnd(s: string): (r: string)
    ensures |r| <= |s| && r == s[..|r|]
    ensures AllSpace(s[|r|..])
    ensures r != [] ==> !IsJsSpace(r[|r| - 1])
  {
    if s != [] && IsJsSpace(s[|s| - 1]) then
      var r := TrimEnd(s[..|s| - 1]);
      assert s[|r|..] == s[..|s| - 1][|r|..] + [s[|s| - 1]];
      r
    else
      s
  }

  /** `r` is the slice of `s` starting at `i`, and everything of `s` before and after
      that slice is whitespace. */
  ghost predicate SliceBetweenSpace(s: string, r: string, i: int) {
    && 0 <= i && i + |r| <= |s|
    && r == s[i..i + |r|]
    && AllSpace(s[..i]) && AllSpace(s[i + |r|..])
  }

  /** `String.prototype.trim`: strips leading and then trailing whitespace. The result
      is empty exactly when `s` is all whitespace, and otherwise neither starts nor ends
      with whitespace; `TrimIsSlice` shows that nothing else is removed. */
  function Trim(s: string): (r: string)
    ensures |r| <= |s|
    ensures r == [] <==> AllSpace(s)
    ensures r != [] ==> !IsJsSpace(r[0]) && !IsJsSpace(r[|r| - 1])
  {
    var t := TrimStart(s);
    PrefixOfSuffix(s, t, TrimEnd(t));
    TrimEnd(t)
  }

  /** The trimmed value is `s` with exactly its leading and trailing whitespace
      removed: a slice of `s` with only whitespace before and after it, empty iff `s`
      is all whitespace, and otherwise starting and ending with a non-space. */
  lemma TrimIsSlice(s: string)
    ensures exists i :: SliceBetweenSpace(s, Trim(s), i)
    ensures Trim(s) == [] <==> AllSpace(s)
    ensures Trim(s) != [] ==> !IsJsSpace(Trim(s)[0]) && !IsJsSpace(Trim(s)[|Trim(s)| - 1])
  {
    var t := TrimStart(s);
    PrefixOfSuffix(s, t, TrimEnd(t));
    assert Trim(s) == TrimEnd(t);
    assert SliceBetweenSpace(s, Trim(s), |s| - |t|);
  }

  lemma PrefixOfSuffix(s: string, t: string, r: string)
    requires |t| <= |s| && t == s[|s| - |t|..] && AllSpace(s[..|s| - |t|])
    requires t != [] ==> !IsJsSpace(t[0])
    requires |r| <= |t| && r == t[..|r|] && AllSpace(t[|r|..])
    ensures SliceBetweenSpace(s, r, |s| - |t|)
    ensures r == [] <==> AllSpace(s)
    ensures r != [] ==> !IsJsSpace(r[0])
  {
    var i := |s| - |t|;
    assert r == s[i..i + |r|];
    assert t[|r|..] == s[i + |r|..];
    if r == [] {
      assert t[|r|..] == t;
      assert s[..|s|] == s;
    } else {
      assert r[0] == t[0] == s[i];
    }
  }

  /** Trimming a trimmed string changes nothing. */
  lemma TrimIdempotent(s: string)
    ensures Trim(Trim(s)) == Trim(s)
  {
    var r := Trim(s);
    if r != [] {
      assert !IsJsSpace(r[0]);
      assert TrimStart(r) == r;
      assert TrimEnd(TrimStart(r)) == r;
    } else {
      assert TrimStart(r) == [];
    }
  }
}
