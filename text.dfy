/**
 * Python's `str.strip()` with no argument: remove the longest prefix and the
 * longest suffix of characters for which `str.isspace()` holds.
 */
module Text {

  /** `str.isspace()` of one character, by code point: the characters of
      Unicode bidirectional class WS, B or S and of general category Zs. */
  predicate IsSpace(c: char) {
    || '\t' <= c <= '\r'
    || '\U{1C}' <= c <= ' '
    || c == '\U{85}' || c == '\U{A0}' || c == '\U{1680}'
    || '\U{2000}' <= c <= '\U{200A}'
    || c == '\U{2028}' || c == '\U{2029}' || c == '\U{202F}' || c == '\U{205F}' || c == '\U{3000}'
  }

  predicate AllSpace(s: string) {
    forall k :: 0 <= k < |s| ==> IsSpace(s[k])
  }

  /** Neither end of `s` is whitespace. */
  predicate IsStripped(s: string) {
    s == [] || (!IsSpace(s[0]) && !IsSpace(s[|s| - 1]))
  }

  /** `str.lstrip()`: `s` without its leading whitespace; the result does
      not start with whitespace (StripLeftRemovesSpace says that it is what
      is left after dropping only whitespace). */
  function StripLeft(s: string): (r: string)
    ensures r == [] || !IsSpace(r[0])
  {
    if s != [] && IsSpace(s[0]) then StripLeft(s[1..]) else s
  }

  /** `str.rstrip()`: `s` without its trailing whitespace; the result does
      not end with whitespace (StripRightRemovesSpace says that it is what
      is left after dropping only whitespace). */
  function StripRight(s: string): (r: string)
    ensures r == [] || !IsSpace(r[|r| - 1])
  {
    if s != [] && IsSpace(s[|s| - 1]) then StripRight(s[..|s| - 1]) else s
  }

  /** `str.strip()`: `s` without its leading and trailing whitespace; neither
      end of the result is whitespace. StripEmptyIff and StripIsFramedSlice
      say what else it is. */
  function Strip(s: string): (r: string)
    ensures IsStripped(r)
  {
    StripRightRemovesSpace(StripLeft(s));
    StripRight(StripLeft(s))
  }

  /** A concatenation is all whitespace exactly when both parts are. */
  lemma AllSpaceConcat(a: string, b: string)
    ensures AllSpace(a + b) <==> AllSpace(a) && AllSpace(b)
  {
    if AllSpace(a + b) {
      forall k | 0 <= k < |a| ensures IsSpace(a[k]) { assert a[k] == (a + b)[k]; }
      forall k | 0 <= k < |b| ensures IsSpace(b[k]) { assert b[k] == (a + b)[|a| + k]; }
    }
  }

  /** `lstrip` keeps a suffix of its input and drops only whitespace. */
  lemma {:induction false} StripLeftRemovesSpace(s: string)
    ensures |StripLeft(s)| <= |s| && StripLeft(s) == s[|s| - |StripLeft(s)|..]
    ensures AllSpace(s[..|s| - |StripLeft(s)|])
  {
    if s != [] && IsSpace(s[0]) {
      StripLeftRemovesSpace(s[1..]);
      var n := |s| - |StripLeft(s)|;
      assert s[..n] == [s[0]] + s[1..][..n - 1];
      AllSpaceConcat([s[0]], s[1..][..n - 1]);
    }
  }

  /** `rstrip` keeps a prefix of its input and drops only whitespace. */
  lemma {:induction false} StripRightRemovesSpace(s: string)
    ensures |StripRight(s)| <= |s| && StripRight(s) == s[..|StripRight(s)|]
    ensures AllSpace(s[|StripRight(s)|..])
  {
    if s != [] && IsSpace(s[|s| - 1]) {
      var t := s[..|s| - 1];
      StripRightRemovesSpace(t);
      var n := |StripRight(s)|;
      assert s[n..] == t[n..] + [s[|s| - 1]];
      AllSpaceConcat(t[n..], [s[|s| - 1]]);
    }
  }

  /** `strip` gives the empty string exactly for an all-whitespace input: the
      condition under which a form field counts as not filled in. */
  lemma StripEmptyIff(s: string)
    ensures Strip(s) == [] <==> AllSpace(s)
  {
    var left := StripLeft(s);
    var i := |s| - |left|;
    StripLeftRemovesSpace(s);
    StripRightRemovesSpace(left);
    assert s == s[..i] + left;
    AllSpaceConcat(s[..i], left);
    if Strip(s) == [] {
      assert left[0..] == left;
    }
  }

  /** What `strip` returns is a slice of its input with only whitespace on
      either side of it. */
  lemma StripIsFramedSlice(s: string)
    ensures exists i :: 0 <= i <= |s| - |Strip(s)| && Strip(s) == s[i..i + |Strip(s)|]
                        && AllSpace(s[..i]) && AllSpace(s[i + |Strip(s)|..])
  {
    var left := StripLeft(s);
    var r := StripRight(left);
    var i := |s| - |left|;
    StripLeftRemovesSpace(s);
    StripRightRemovesSpace(left);
    assert r == Strip(s);
    assert s[i..] == left;
    assert r == s[i..i + |r|] by {
      assert s[i..i + |r|] == left[..|r|];
    }
    assert AllSpace(s[..i]);
    assert AllSpace(s[i + |r|..]) by {
      assert s[i + |r|..] == left[|r|..];
    }
  }

  /** A string that is already stripped is left as it is. */
  lemma StrippedIsFixed(s: string)
    requires IsStripped(s)
    ensures Strip(s) == s
  {
  }

  /** Stripping twice is stripping once. */
  lemma StripIdempotent(s: string)
    ensures Strip(Strip(s)) == Strip(s)
  {
    StrippedIsFixed(Strip(s));
  }

  /** Leading whitespace makes no difference to `lstrip`. */
  lemma {:induction false} StripLeftSkipsSpace(a: string, t: string)
    requires AllSpace(a)
    ensures StripLeft(a + t) == StripLeft(t)
  {
    if a != [] {
      assert IsSpace((a + t)[0]) by { assert (a + t)[0] == a[0]; }
      assert (a + t)[1..] == a[1..] + t;
      assert AllSpace(a[1..]) by {
        forall k | 0 <= k < |a| - 1 ensures IsSpace(a[1..][k]) { assert a[1..][k] == a[k + 1]; }
      }
      StripLeftSkipsSpace(a[1..], t);
    } else {
      assert a + t == t;
    }
  }

  /** Trailing whitespace makes no difference to `rstrip`. */
  lemma {:induction false} StripRightSkipsSpace(t: string, b: string)
    requires AllSpace(b)
    ensures StripRight(t + b) == StripRight(t)
  {
    if b != [] {
      var b' := b[..|b| - 1];
      assert IsSpace((t + b)[|t + b| - 1]) by { assert (t + b)[|t + b| - 1] == b[|b| - 1]; }
      assert (t + b)[..|t + b| - 1] == t + b';
      assert AllSpace(b') by {
        forall k | 0 <= k < |b'| ensures IsSpace(b'[k]) { assert b'[k] == b[k]; }
      }
      StripRightSkipsSpace(t, b');
    } else {
      assert t + b == t;
    }
  }

  /** Dropping a leading whitespace character keeps a string all-whitespace
      exactly when it was. */
  lemma AllSpaceTail(s: string)
    requires s != [] && IsSpace(s[0])
    ensures AllSpace(s) <==> AllSpace(s[1..])
  {
    if AllSpace(s[1..]) {
      forall k | 0 < k < |s| ensures IsSpace(s[k]) {
        assert s[k] == s[1..][k - 1];
      }
    }
  }

  /** `lstrip` of a concatenation: a whitespace-only first part disappears,
      anything else is kept apart from its own leading whitespace. */
  lemma {:induction false} StripLeftAppend(s: string, b: string)
    ensures StripLeft(s + b) == if AllSpace(s) then StripLeft(b) else StripLeft(s) + b
  {
    if s == [] {
      assert s + b == b;
    } else if IsSpace(s[0]) {
      assert (s + b)[0] == s[0];
      assert (s + b)[1..] == s[1..] + b;
      assert StripLeft(s + b) == StripLeft(s[1..] + b);
      StripLeftAppend(s[1..], b);
      AllSpaceTail(s);
    } else {
      assert (s + b)[0] == s[0];
      assert !AllSpace(s);
    }
  }

  /** Surrounding whitespace never changes what `strip` returns: inputs that
      differ only in leading and trailing whitespace strip to the same string. */
  lemma StripIgnoresPadding(a: string, s: string, b: string)
    requires AllSpace(a) && AllSpace(b)
    ensures Strip(a + s + b) == Strip(s)
  {
    assert a + s + b == a + (s + b);
    StripLeftSkipsSpace(a, s + b);
    StripLeftAppend(s, b);
    if AllSpace(s) {
      StripEmptyIff(b);
      StripEmptyIff(s);
    } else {
      StripRightSkipsSpace(StripLeft(s), b);
    }
  }
}
