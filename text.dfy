/** Text helpers: the whitespace trimming that `String.prototype.trim` performs. */
module Text {

  /** ECMAScript WhiteSpace and LineTerminator code points: the characters `trim` removes. */
  predicate IsWhitespace(c: char)
  {
    || c == ' ' || c == '\t' || c == '\n' || c == '\r'
    || c == '\U{000B}' || c == '\U{000C}'
    || c == '\U{00A0}' || c == '\U{FEFF}' || c == '\U{1680}'
    || ('\U{2000}' <= c <= '\U{200A}')
    || c == '\U{2028}' || c == '\U{2029}'
    || c == '\U{202F}' || c == '\U{205F}' || c == '\U{3000}'
  }

  /** All characters of `s` are whitespace. */
  ghost predicate AllWhitespace(s: string)
  {
    forall i :: 0 <= i < |s| ==> IsWhitespace(s[i])
  }

  /** Drops the leading whitespace: what remains is a suffix of `s` that does not start with whitespace. */
  function TrimStart(s: string): (r: string)
    ensures |r| <= |s| && r == s[|s| - |r|..]
    ensures AllWhitespace(s[..|s| - |r|])
    ensures r == [] || !IsWhitespace(r[0])
  {
    if |s| > 0 && IsWhitespace(s[0]) then
      var t := TrimStart(s[1..]);
      var dropped := s[..|s| - |t|];
      forall i | 0 <= i < |dropped| ensures IsWhitespace(dropped[i]) {
        if 0 < i {
          assert dropped[i] == s[1..][..|s| - 1 - |t|][i - 1];
        }
      }
      t
    else
      s
  }

  /** Drops the trailing whitespace: what remains is a prefix of `s` that does not end with whitespace. */
  function TrimEnd(s: string): (r: string)
    ensures |r| <= |s| && r == s[..|r|]
    ensures AllWhitespace(s[|r|..])
    ensures r == [] || !IsWhitespace(r[|r| - 1])
  {
    if |s| > 0 && IsWhitespace(s[|s| - 1]) then
      var t := TrimEnd(s[..|s| - 1]);
      forall i | 0 <= i < |s| - |t| ensures IsWhitespace(s[|t|..][i]) {
        if i < |s| - 1 - |t| {
          assert s[|t|..][i] == s[..|s| - 1][|t|..][i];
        }
      }
      t
    else
      s
  }

  /**
   * `s.trim()`: the input with its leading and trailing whitespace cut off
   * (see `TrimCut`), so that what remains neither starts nor ends with whitespace.
   */
  function Trim(s: string): (r: string)
    ensures |r| <= |s|
    ensures r == [] || (!IsWhitespace(r[0]) && !IsWhitespace(r[|r| - 1]))
  {
    TrimEnd(TrimStart(s))
  }

  /**
   * What `trim` returns: the part of `s` between a blank prefix, as long as
   * the leading whitespace, and a blank suffix.
   */
  lemma {:induction false} TrimCut(s: string)
    ensures var a := |s| - |TrimStart(s)|;
      var r := Trim(s);
      a + |r| <= |s| && r == s[a..a + |r|] &&
      AllWhitespace(s[..a]) && AllWhitespace(s[a + |r|..])
  {
    var u := TrimStart(s);
    var r := TrimEnd(u);
    var a := |s| - |u|;
    SuffixSlices(s, a, |r|);
    assert AllWhitespace(u[|r|..]) == AllWhitespace(s[a + |r|..]);
  }

  /** Slicing a suffix of a sequence is slicing the sequence itself. */
  lemma SuffixSlices<T>(s: seq<T>, a: nat, n: nat)
    requires a + n <= |s|
    ensures s[a..][..n] == s[a..a + n] && s[a..][n..] == s[a + n..]
  {
  }

  /** `trim` yields the empty string exactly when the input is blank (all whitespace). */
  lemma {:induction false} TrimEmptyIffBlank(s: string)
    ensures Trim(s) == [] <==> AllWhitespace(s)
  {
    var u := TrimStart(s);
    if AllWhitespace(s) {
      assert u == [];
    }
    if Trim(s) == [] {
      // TrimEnd removed all of u, so u is blank; TrimStart leaves no blank start, so u is empty
      assert u[0..] == u;
      assert u == [];
      assert s[..|s| - |u|] == s;
    }
  }

  /** Trimming twice is trimming once. */
  lemma {:induction false} TrimIdempotent(s: string)
    ensures Trim(Trim(s)) == Trim(s)
  {
    var r := Trim(s);
    if r != [] {
      assert TrimStart(r) == r;
      assert TrimEnd(r) == r;
    }
  }
}
