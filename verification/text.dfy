/** String.prototype.trim as the handlers use it on the submitted name and artist.
    Strings are sequences of Unicode scalar values; the whitespace set is the one
    ECMAScript strips: the WhiteSpace code points (tab, vertical tab, form feed,
    space, no-break space, byte order mark and the other space separators) and the
    LineTerminator code points (line feed, carriage return, line and paragraph
    separators). */
module Text {

  predicate IsSpace(c: char) {
    || c == '\t' || c == '\n' || c == '\U{000B}' || c == '\U{000C}' || c == '\r'
    || c == ' ' || c == '\U{00A0}' || c == '\U{1680}'
    || ('\U{2000}' <= c <= '\U{200A}')
    || c == '\U{2028}' || c == '\U{2029}' || c == '\U{202F}' || c == '\U{205F}'
    || c == '\U{3000}' || c == '\U{FEFF}'
  }

  predicate AllSpace(s: string) {
    forall k :: 0 <= k < |s| ==> IsSpace(s[k])
  }

  /** `s` without its leading whitespace (see TrimStartSpec). */
  function TrimStart(s: string): string
  {
    if s == [] || !IsSpace(s[0]) then s else TrimStart(s[1..])
  }

  /** `s` without its trailing whitespace (see TrimEndSpec). */
  function TrimEnd(s: string): string
  {
    if s == [] || !IsSpace(s[|s| - 1]) then s else TrimEnd(s[..|s| - 1])
  }

  /** TrimStart keeps the longest suffix of `s` that does not start with whitespace:
      everything it drops is whitespace. */
  lemma {:induction false} TrimStartSpec(s: string)
    ensures var r := TrimStart(s);
            && |r| <= |s| && r == s[|s| - |r|..]
            && AllSpace(s[..|s| - |r|])
            && (r == [] || !IsSpace(r[0]))
    decreases |s|
  {
    if s != [] && IsSpace(s[0]) {
      var tail := s[1..];
      var rest := TrimStart(tail);
      TrimStartSpec(tail);
      assert TrimStart(s) == rest;
      var n := |s| - |rest|;
      assert rest == tail[|tail| - |rest|..] == s[n..];
      forall k | 0 <= k < n ensures IsSpace(s[..n][k]) {
        if k > 0 {
          assert s[..n][k] == tail[..n - 1][k - 1];
        }
      }
    }
  }

  /** TrimEnd keeps the longest prefix of `s` that does not end in whitespace:
      everything it drops is whitespace. */
  lemma {:induction false} TrimEndSpec(s: string)
    ensures var r := TrimEnd(s);
            && |r| <= |s| && r == s[..|r|]
            && AllSpace(s[|r|..])
            && (r == [] || !IsSpace(r[|r| - 1]))
    decreases |s|
  {
    if s != [] && IsSpace(s[|s| - 1]) {
      var init := s[..|s| - 1];
      var rest := TrimEnd(init);
      TrimEndSpec(init);
      assert TrimEnd(s) == rest;
      var n := |rest|;
      assert rest == init[..n] == s[..n];
      forall j | 0 <= j < |s| - n ensures IsSpace(s[n..][j]) {
        if j < |s| - 1 - n {
          assert s[n..][j] == init[n..][j];
        } else {
          assert s[n..][j] == s[|s| - 1];
        }
      }
    }
  }

  /** Both ends stripped: the result neither starts nor ends with whitespace. */
  function Trim(s: string): (r: string)
    ensures |r| <= |s|
    ensures r == [] || (!IsSpace(r[0]) && !IsSpace(r[|r| - 1]))
  {
    TrimStartSpec(s);
    TrimEndSpec(TrimStart(s));
    TrimEnd(TrimStart(s))
  }

  /** Trim yields the empty string exactly when the input is all whitespace. */
  lemma TrimEmptyIffAllSpace(s: string)
    ensures Trim(s) == [] <==> AllSpace(s)
  {
    var left := TrimStart(s);
    var r := TrimEnd(left);
    TrimStartSpec(s);
    TrimEndSpec(left);
    if r == [] {
      assert left == [];
      assert s[..|s|] == s;
    } else {
      assert s[|s| - |left|] == left[0];
    }
  }

  /** The text Trim keeps is a contiguous piece of the input, with only whitespace
      cut away on either side. */
  lemma TrimIsInfix(s: string)
    ensures exists i, j :: 0 <= i <= j <= |s| && Trim(s) == s[i..j]
                           && AllSpace(s[..i]) && AllSpace(s[j..])
  {
    var left := TrimStart(s);
    var i := |s| - |left|;
    var r := TrimEnd(left);
    TrimStartSpec(s);
    TrimEndSpec(left);
    var j := i + |r|;
    assert r == left[..|r|] == s[i..j];
    assert s[j..] == left[|r|..];
  }

  /** Trimming twice is trimming once. */
  lemma TrimIdempotent(s: string)
    ensures Trim(Trim(s)) == Trim(s)
  {
    TrimKeepsClean(Trim(s));
  }

  /** A string that already has no whitespace at its ends is left as it is. */
  lemma TrimKeepsClean(s: string)
    requires s == [] || (!IsSpace(s[0]) && !IsSpace(s[|s| - 1]))
    ensures Trim(s) == s
  {
    TrimStartKeepsClean(s);
    TrimEndKeepsClean(s);
  }

  lemma TrimStartKeepsClean(s: string)
    requires s == [] || !IsSpace(s[0])
    ensures TrimStart(s) == s
  {
  }

  lemma TrimEndKeepsClean(s: string)
    requires s == [] || !IsSpace(s[|s| - 1])
    ensures TrimEnd(s) == s
  {
  }
}
