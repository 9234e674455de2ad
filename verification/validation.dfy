/**
 Validation of required form inputs (script.js:877-900). On blur, the value is
 trimmed; an email input must then match the pattern
 `^[^\s@]+@[^\s@]+\.[^\s@]+$`, and a required input must not be empty. The
 email rule is checked first, so an empty email input is reported as an
 invalid address rather than as a missing value.
 */
module Validation {

  /**
   The characters JavaScript's `String.prototype.trim` removes and the regular
   expression class `\s` matches: the ECMAScript WhiteSpace and
   LineTerminator code points.
   */
  const Whitespace: set<char> := {
    '\t', '\n', '\U{000B}', '\U{000C}', '\r', ' ', '\U{00A0}', '\U{1680}',
    '\U{2000}', '\U{2001}', '\U{2002}', '\U{2003}', '\U{2004}', '\U{2005}',
    '\U{2006}', '\U{2007}', '\U{2008}', '\U{2009}', '\U{200A}',
    '\U{2028}', '\U{2029}', '\U{202F}', '\U{205F}', '\U{3000}', '\U{FEFF}'
  }

  predicate IsSpace(c: char) { c in Whitespace }

  predicate AllSpace(s: string) {
    forall k :: 0 <= k < |s| ==> IsSpace(s[k])
  }

  /** Drops leading white space: the longest suffix whose dropped prefix is all white space. */
  function TrimStart(s: string): (r: string)
    ensures |r| <= |s| && r == s[|s| - |r|..]
    ensures AllSpace(s[..|s| - |r|])
    ensures |r| > 0 ==> !IsSpace(r[0])
    decreases |s|
  {
    if |s| > 0 && IsSpace(s[0]) then
      var r := TrimStart(s[1..]);
      assert s[..|s| - |r|] == [s[0]] + s[1..][..|s| - 1 - |r|];
      r
    else s
  }

  /** Drops trailing white space: the longest prefix whose dropped suffix is all white space. */
  function TrimEnd(s: string): (r: string)
    ensures |r| <= |s| && r == s[..|r|]
    ensures AllSpace(s[|r|..])
    ensures |r| > 0 ==> !IsSpace(r[|r| - 1])
    decreases |s|
  {
    if |s| > 0 && IsSpace(s[|s| - 1]) then
      var r := TrimEnd(s[..|s| - 1]);
      assert s[|r|..] == s[..|s| - 1][|r|..] + [s[|s| - 1]];
      r
    else s
  }

  /** JavaScript's `String.prototype.trim`. */
  function Trim(s: string): (r: string)
    ensures |r| > 0 ==> !IsSpace(r[0]) && !IsSpace(r[|r| - 1])
    ensures exists i :: 0 <= i <= |s| - |r| && IsCore(s, r, i)
    ensures |r| == 0 <==> AllSpace(s)
  {
    TrimIsCore(s);
    TrimEnd(TrimStart(s))
  }

  lemma TrimIsCore(s: string)
    ensures var r := TrimEnd(TrimStart(s));
            && IsCore(s, r, |s| - |TrimStart(s)|)
            && (|r| == 0 <==> AllSpace(s))
  {
    TrimCoreAt(s);
    TrimEmptyIffBlank(s);
  }

  lemma TrimCoreAt(s: string)
    ensures IsCore(s, TrimEnd(TrimStart(s)), |s| - |TrimStart(s)|)
  {
    var t := TrimStart(s);
    var r := TrimEnd(t);
    assert t == s[|s| - |t|..];
    assert r == t[..|r|];
    CoreBetween(s, t, r);
  }

  /** A prefix `r` of a suffix `t` of `s`, with only white space cut on both sides, is a core of `s`. */
  lemma CoreBetween(s: string, t: string, r: string)
    requires |t| <= |s| && t == s[|s| - |t|..] && AllSpace(s[..|s| - |t|])
    requires |r| <= |t| && r == t[..|r|] && AllSpace(t[|r|..])
    ensures IsCore(s, r, |s| - |t|)
  {
    var i := |s| - |t|;
    SliceOfSuffix(s, i, |r|);
    SpaceAfterCore(s, t, r, i);
  }

  /** Taking `n` characters of the suffix from `i` is the slice from `i` to `i + n`. */
  lemma SliceOfSuffix(s: string, i: nat, n: nat)
    requires i + n <= |s|
    ensures s[i..][..n] == s[i..i + n]
  {
  }

  lemma SpaceAfterCore(s: string, t: string, r: string, i: nat)
    requires i <= |s| && t == s[i..]
    requires |r| <= |t| && AllSpace(t[|r|..])
    ensures forall k :: i + |r| <= k < |s| ==> IsSpace(s[k])
  {
    forall k | i + |r| <= k < |s| ensures IsSpace(s[k]) {
      assert s[k] == t[|r|..][k - i - |r|];
    }
  }

  lemma TrimEmptyIffBlank(s: string)
    ensures |TrimEnd(TrimStart(s))| == 0 <==> AllSpace(s)
  {
    var t := TrimStart(s);
    var r := TrimEnd(t);
    var i := |s| - |t|;
    assert t == s[i..];
    if |r| == 0 {
      assert AllSpace(s[..|s| - |TrimStart(s)|]);
      assert t[|r|..] == t;
      assert AllSpace(t);
      assert i == |s|;
      forall k | 0 <= k < |s| ensures IsSpace(s[k]) {
        assert s[k] == s[..i][k];
      }
    } else {
      assert r[0] == t[0] == s[i];
    }
  }

  /** `r` sits at position `i` of `s` with only white space before and after it. */
  predicate IsCore(s: string, r: string, i: nat) {
    && i + |r| <= |s|
    && s[i..i + |r|] == r
    && AllSpace(s[..i])
    && forall k :: i + |r| <= k < |s| ==> IsSpace(s[k])
  }

  /** Trimming twice is trimming once. */
  lemma TrimIdempotent(s: string)
    ensures Trim(Trim(s)) == Trim(s)
  {
    var r := Trim(s);
    assert TrimStart(r) == r;
    assert TrimEnd(r) == r;
  }

  /** A character the pattern's class `[^\s@]` accepts. */
  predicate AtomChar(c: char) { !IsSpace(c) && c != '@' }

  /** A non-empty run of `[^\s@]`, as `[^\s@]+` matches. */
  predicate Atom(x: string) {
    |x| > 0 && forall k :: 0 <= k < |x| ==> AtomChar(x[k])
  }

  /** `s` splits as `a @ b . c` with each part a match of `[^\s@]+`. */
  ghost predicate PatternSplit(s: string, a: string, b: string, c: string) {
    s == a + "@" + b + "." + c && Atom(a) && Atom(b) && Atom(c)
  }

  /** The regular expression `^[^\s@]+@[^\s@]+\.[^\s@]+$`, as a set of strings. */
  ghost predicate EmailPattern(s: string) {
    exists a, b, c :: PatternSplit(s, a, b, c)
  }

  /**
   The address rule as a checkable condition: no white space, exactly one
   '@' with something before it, and after it a '.' that is neither the first
   nor the last character of the part after the '@'.
   */
  predicate ValidEmail(s: string) {
    && (forall k :: 0 <= k < |s| ==> !IsSpace(s[k]))
    && exists i :: 0 < i < |s| && AtIndex(s, i) && HasInnerDot(s, i)
  }

  /** Position `i` holds the only '@' of `s`. */
  predicate AtIndex(s: string, i: nat) {
    && i < |s| && s[i] == '@'
    && forall k :: 0 <= k < |s| && k != i ==> s[k] != '@'
  }

  /** After position `i`, a '.' with at least one character on each side within that part. */
  predicate HasInnerDot(s: string, i: nat) {
    exists p :: i + 1 < p < |s| - 1 && s[p] == '.'
  }

  lemma ValidEmailMatchesPattern(s: string)
    requires ValidEmail(s)
    ensures EmailPattern(s)
  {
    var i :| 0 < i < |s| && AtIndex(s, i) && HasInnerDot(s, i);
    var p :| i + 1 < p < |s| - 1 && s[p] == '.';
    var a, b, c := s[..i], s[i + 1..p], s[p + 1..];
    assert s == a + "@" + b + "." + c;
    assert Atom(a) by {
      forall k | 0 <= k < |a| ensures AtomChar(a[k]) { assert a[k] == s[k]; }
    }
    assert Atom(b) by {
      forall k | 0 <= k < |b| ensures AtomChar(b[k]) { assert b[k] == s[i + 1 + k]; }
    }
    assert Atom(c) by {
      forall k | 0 <= k < |c| ensures AtomChar(c[k]) { assert c[k] == s[p + 1 + k]; }
    }
    assert PatternSplit(s, a, b, c);
  }

  lemma PatternIsValidEmail(s: string, a: string, b: string, c: string)
    requires PatternSplit(s, a, b, c)
    ensures ValidEmail(s)
  {
    var i := |a|;
    var p := |a| + 1 + |b|;
    assert s[i] == '@' && s[p] == '.';
    forall k | 0 <= k < |s| && k != i ensures AtomChar(s[k]) || k == p {
      if k < i { assert s[k] == a[k]; }
      else if k < p { assert s[k] == b[k - i - 1]; }
      else if k > p { assert s[k] == c[k - p - 1]; }
    }
    assert AtIndex(s, i);
    assert HasInnerDot(s, i);
  }

  /** The checkable rule accepts exactly the strings the regular expression matches. */
  lemma ValidEmailIffPattern(s: string)
    ensures ValidEmail(s) <==> EmailPattern(s)
  {
    if ValidEmail(s) {
      ValidEmailMatchesPattern(s);
    }
    if EmailPattern(s) {
      var a, b, c :| PatternSplit(s, a, b, c);
      PatternIsValidEmail(s, a, b, c);
    }
  }

  /** What `validateInput` reports for a field. */
  datatype Verdict = EmailInvalid | Required | Ok

  /** The parts of an input element the validator reads. */
  datatype Field = Field(isEmail: bool, required: bool, value: string)

  /** The blur handler: email rule first, then the required rule, on the trimmed value. */
  function ValidateInput(f: Field): (v: Verdict)
    ensures v == EmailInvalid <==> f.isEmail && !EmailPattern(Trim(f.value))
    ensures v == Required <==> !f.isEmail && f.required && AllSpace(f.value)
    ensures v == Ok <==> && (f.isEmail ==> EmailPattern(Trim(f.value)))
                         && (f.required ==> !AllSpace(f.value))
  {
    var value := Trim(f.value);
    ValidEmailIffPattern(value);
    if f.isEmail && !ValidEmail(value) then EmailInvalid
    else if f.required && value == "" then Required
    else Ok
  }

  /** An email input left empty or blank is reported as an invalid address, not as missing. */
  lemma BlankEmailIsInvalid(required: bool, value: string)
    requires AllSpace(value)
    ensures ValidateInput(Field(true, required, value)) == EmailInvalid
  {
  }

  /** White space around a value, on either side and of any amount, never changes the verdict. */
  lemma PaddingDoesNotMatter(f: Field, pre: string, post: string)
    requires AllSpace(pre) && AllSpace(post)
    ensures ValidateInput(f.(value := pre + f.value + post)) == ValidateInput(f)
  {
    var s := f.value;
    TrimPadded(pre, s, post);
    AllSpaceConcat(pre, s);
    AllSpaceConcat(pre + s, post);
  }

  /** A concatenation is all white space exactly when both parts are. */
  lemma AllSpaceConcat(a: string, b: string)
    ensures AllSpace(a + b) <==> AllSpace(a) && AllSpace(b)
  {
    var ab := a + b;
    if AllSpace(a) && AllSpace(b) {
      forall k | 0 <= k < |ab| ensures IsSpace(ab[k]) {
        if k < |a| { assert ab[k] == a[k]; } else { assert ab[k] == b[k - |a|]; }
      }
    }
    if AllSpace(ab) {
      forall k | 0 <= k < |a| ensures IsSpace(a[k]) { assert a[k] == ab[k]; }
      forall k | 0 <= k < |b| ensures IsSpace(b[k]) { assert b[k] == ab[|a| + k]; }
    }
  }

  lemma {:induction false} TrimStartPadded(pad: string, s: string)
    requires AllSpace(pad)
    ensures TrimStart(pad + s) == TrimStart(s)
    decreases |pad|
  {
    if pad == [] {
      assert pad + s == s;
    } else {
      assert (pad + s)[1..] == pad[1..] + s;
      TrimStartPadded(pad[1..], s);
    }
  }

  lemma {:induction false} TrimEndPadded(s: string, pad: string)
    requires AllSpace(pad)
    ensures TrimEnd(s + pad) == TrimEnd(s)
    decreases |pad|
  {
    if pad == [] {
      assert s + pad == s;
    } else {
      var n := |pad| - 1;
      assert (s + pad)[..|s + pad| - 1] == s + pad[..n];
      TrimEndPadded(s, pad[..n]);
    }
  }

  lemma TrimPadded(pre: string, s: string, post: string)
    requires AllSpace(pre) && AllSpace(post)
    ensures Trim(pre + s + post) == Trim(s)
  {
    assert pre + s + post == pre + (s + post);
    TrimStartPadded(pre, s + post);
    assert TrimStart(pre + s + post) == TrimStart(s + post);
    TrimStartAppend(s, post);
    if TrimStart(s + post) == TrimStart(s) + post {
      TrimEndPadded(TrimStart(s), post);
      assert TrimEnd(TrimStart(s + post)) == TrimEnd(TrimStart(s));
    } else {
      assert TrimStart(s + post) == [] && TrimStart(s) == [];
    }
  }

  /** Trailing white space survives a left trim unless everything is white space. */
  lemma {:induction false} TrimStartAppend(s: string, pad: string)
    requires AllSpace(pad)
    ensures TrimStart(s + pad) == TrimStart(s) + pad || (AllSpace(s) && TrimStart(s + pad) == [] && TrimStart(s) == [])
    decreases |s|
  {
    if s == [] {
      assert s + pad == pad;
    } else if IsSpace(s[0]) {
      assert (s + pad)[1..] == s[1..] + pad;
      TrimStartAppend(s[1..], pad);
    } else {
      assert (s + pad)[0] == s[0];
    }
  }

}
