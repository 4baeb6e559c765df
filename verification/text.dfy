/** JavaScript string semantics the views rely on: truthiness, the `||`
    display fallback and `String.prototype.trim`. */
module Text {
  import opened Wrappers

  /** The code points `trim` strips: WhiteSpace and LineTerminator of
      ECMAScript (sections 12.2 and 12.3 of ECMA-262), that is tab, vertical
      tab, form feed, space, no-break space, the byte-order mark, the
      space separators of Unicode category Zs, and the four line terminators. */
  predicate IsWhiteSpace(c: char) {
    || c == '\t' || c == '\U{B}' || c == '\U{C}' || c == ' '
    || c == '\U{A0}' || c == '\U{FEFF}'
    || c == '\U{1680}' || ('\U{2000}' <= c <= '\U{200A}')
    || c == '\U{202F}' || c == '\U{205F}' || c == '\U{3000}'
    || c == '\n' || c == '\r' || c == '\U{2028}' || c == '\U{2029}'
  }

  predicate AllWhiteSpace(s: string) {
    forall i :: 0 <= i < |s| ==> IsWhiteSpace(s[i])
  }

  /** Neither the first nor the last character is white space. */
  predicate Trimmed(s: string) {
    s == [] || (!IsWhiteSpace(s[0]) && !IsWhiteSpace(s[|s| - 1]))
  }

  /** `r` sits in `s` at offset `i`, with only white space before and after it. */
  predicate InfixAt(s: string, r: string, i: nat) {
    && i + |r| <= |s| && r == s[i..i + |r|]
    && AllWhiteSpace(s[..i]) && AllWhiteSpace(s[i + |r|..])
  }

  /** Truthiness of an optional string field: present and not empty. */
  predicate Present(v: Option<string>) {
    v.Some? && v.value != ""
  }

  /** `v || fallback` on an optional string. */
  function OrElse(v: Option<string>, fallback: string): string {
    if Present(v) then v.value else fallback
  }

  /** Leading white space removed. */
  function TrimStart(s: string): (r: string)
    ensures |r| <= |s| && r == s[|s| - |r|..]
    ensures AllWhiteSpace(s[..|s| - |r|])
    ensures r == [] || !IsWhiteSpace(r[0])
  {
    if |s| > 0 && IsWhiteSpace(s[0]) then
      var r := TrimStart(s[1..]);
      assert s[..|s| - |r|] == [s[0]] + s[1..][..|s| - 1 - |r|];
      r
    else
      s
  }

  /** Trailing white space removed. */
  function TrimEnd(s: string): (r: string)
    ensures |r| <= |s| && r == s[..|r|]
    ensures AllWhiteSpace(s[|r|..])
    ensures r == [] || !IsWhiteSpace(r[|r| - 1])
  {
    if |s| > 0 && IsWhiteSpace(s[|s| - 1]) then
      var r := TrimEnd(s[..|s| - 1]);
      assert s[|r|..] == s[..|s| - 1][|r|..] + [s[|s| - 1]];
      r
    else
      s
  }

  /** White space on both sides of a split is white space of the whole. */
  lemma AllWhiteSpaceSplit(s: string, i: nat)
    requires i <= |s|
    ensures AllWhiteSpace(s) <==> AllWhiteSpace(s[..i]) && AllWhiteSpace(s[i..])
  {
    if AllWhiteSpace(s[..i]) && AllWhiteSpace(s[i..]) {
      forall k | 0 <= k < |s|
        ensures IsWhiteSpace(s[k])
      {
        if k < i { assert s[k] == s[..i][k]; } else { assert s[k] == s[i..][k - i]; }
      }
    }
  }

  /** `s.trim()`: the longest infix of `s` that neither starts nor ends with
      white space, found by cutting white space off both ends. */
  function Trim(s: string): (r: string)
    ensures Trimmed(r)
    ensures r == [] <==> AllWhiteSpace(s)
  {
    TrimEndsFacts(s);
    TrimEnd(TrimStart(s))
  }

  /** The two cuts together leave a trimmed string, empty exactly when the
      input is all white space. */
  lemma TrimEndsFacts(s: string)
    ensures Trimmed(TrimEnd(TrimStart(s)))
    ensures TrimEnd(TrimStart(s)) == [] <==> AllWhiteSpace(s)
  {
    var t := TrimStart(s);
    var r := TrimEnd(t);
    var i := |s| - |t|;
    assert t == s[i..];
    AllWhiteSpaceSplit(s, i);
    if r != [] {
      assert r[0] == t[0];
      assert s[i] == t[0];
    } else {
      assert t[|r|..] == t;
    }
  }

  /** What `trim` removes is white space, from the two ends only: the result
      is an infix of the input with nothing but white space around it. */
  lemma TrimIsInfix(s: string)
    ensures exists i :: InfixAt(s, Trim(s), i)
  {
    var t := TrimStart(s);
    var r := TrimEnd(t);
    var i := |s| - |t|;
    assert r == Trim(s);
    assert r == s[i..i + |r|];
    assert s[i + |r|..] == t[|r|..];
    assert InfixAt(s, r, i);
  }

  /** A string that already neither starts nor ends with white space is left
      as it is by `trim`. */
  lemma TrimKeepsTrimmed(s: string)
    requires Trimmed(s)
    ensures Trim(s) == s
  {
  }

  /** `trim` is idempotent. */
  lemma TrimIdempotent(s: string)
    ensures Trim(Trim(s)) == Trim(s)
  {
    TrimKeepsTrimmed(Trim(s));
  }
}
