/** Str::wildCardMatch: '?' stands for one character, '*' for any substring. */
module Glob {
  /** A C string: the terminating NUL is the end, so it does not occur inside. */
  type CString = s: string | '\0' !in s witness ""

  // ----- the declarative meaning -----

  predicate PieceMatches(piece: string, p: char) {
    if p == '*' then true
    else if p == '?' then |piece| == 1
    else piece == [p]
  }

  function Concat(pieces: seq<string>): string {
    if pieces == [] then [] else pieces[0] + Concat(pieces[1..])
  }

  ghost predicate IsCut(s: string, pattern: string, pieces: seq<string>) {
    && |pieces| == |pattern| && Concat(pieces) == s
    && forall i | 0 <= i < |pattern| :: PieceMatches(pieces[i], pattern[i])
  }

  /** The string can be cut into one piece per pattern character, each matching its character. */
  ghost predicate Matches(s: string, pattern: string) {
    exists pieces: seq<string> :: IsCut(s, pattern, pieces)
  }

  // ----- one pattern character at a time -----

  lemma MatchesEmpty(s: string)
    ensures Matches(s, "") <==> s == ""
  {
    assert IsCut("", "", []);
    forall pieces | IsCut(s, "", pieces) ensures s == "" {
      assert pieces == [];
    }
  }

  lemma MatchesCons(s: string, pattern: string)
    requires pattern != ""
    ensures Matches(s, pattern) <==>
              exists n | 0 <= n <= |s| :: PieceMatches(s[..n], pattern[0]) && Matches(s[n..], pattern[1..])
  {
    if Matches(s, pattern) {
      var pieces :| IsCut(s, pattern, pieces);
      var n := |pieces[0]|;
      assert s[..n] == pieces[0] && s[n..] == Concat(pieces[1..]);
      assert IsCut(s[n..], pattern[1..], pieces[1..]);
    }
    if n :| 0 <= n <= |s| && PieceMatches(s[..n], pattern[0]) && Matches(s[n..], pattern[1..]) {
      var pieces :| IsCut(s[n..], pattern[1..], pieces);
      assert ([s[..n]] + pieces)[1..] == pieces;
      assert s == s[..n] + s[n..];
      assert IsCut(s, pattern, [s[..n]] + pieces);
    }
  }

  /** '*' matches nothing, or swallows one character and goes on. */
  lemma MatchesStar(s: string, pattern: string)
    requires pattern != "" && pattern[0] == '*'
    ensures Matches(s, pattern) <==> Matches(s, pattern[1..]) || (s != "" && Matches(s[1..], pattern))
  {
    MatchesCons(s, pattern);
    if Matches(s, pattern) {
      var n :| 0 <= n <= |s| && Matches(s[n..], pattern[1..]);
      if n == 0 {
        assert s[0..] == s;
      } else {
        MatchesCons(s[1..], pattern);
        assert s[1..][n - 1..] == s[n..];
        assert PieceMatches(s[1..][..n - 1], pattern[0]);
      }
    }
    if Matches(s, pattern[1..]) {
      assert s[0..] == s && PieceMatches(s[..0], pattern[0]);
    }
    if s != "" && Matches(s[1..], pattern) {
      MatchesCons(s[1..], pattern);
      var n :| 0 <= n <= |s[1..]| && Matches(s[1..][n..], pattern[1..]);
      assert s[1..][n..] == s[n + 1..];
      assert PieceMatches(s[..n + 1], pattern[0]);
    }
  }

  /** Any other pattern character takes exactly one character of the string. */
  lemma MatchesOne(s: string, pattern: string)
    requires pattern != "" && pattern[0] != '*'
    ensures Matches(s, pattern) <==>
              s != "" && (pattern[0] == '?' || pattern[0] == s[0]) && Matches(s[1..], pattern[1..])
  {
    MatchesCons(s, pattern);
    if s != "" { assert s[..1] == [s[0]]; }
  }

  // ----- the code -----

  /** `str` and `pattern` point i and j characters into the arguments; the loop advances them, and a '*' tries
      both continuations by recursive calls. */
  method WildCardMatch(str: CString, pattern: CString) returns (r: bool)
    ensures r <==> Matches(str, pattern)
    decreases |str| + |pattern|
  {
    var i, j := 0, 0;
    while j < |pattern|
      invariant 0 <= i <= |str| && 0 <= j <= |pattern|
      invariant Matches(str, pattern) <==> Matches(str[i..], pattern[j..])
      decreases |pattern| - j
    {
      assert pattern[j..][1..] == pattern[j + 1..];
      match pattern[j]
      case '?' =>
        MatchesOne(str[i..], pattern[j..]);
        if i == |str| { return false; }
        assert str[i..][1..] == str[i + 1..];
        i, j := i + 1, j + 1;
      case '*' =>
        MatchesStar(str[i..], pattern[j..]);
        var shorter := WildCardMatch(str[i..], pattern[j + 1..]);
        if shorter { return true; }
        if i < |str| {
          assert str[i..][1..] == str[i + 1..];
          var swallow := WildCardMatch(str[i + 1..], pattern[j..]);
          if swallow { return true; }
        }
        return false;
      case _ =>
        MatchesOne(str[i..], pattern[j..]);
        if i == |str| || str[i] != pattern[j] { return false; }
        assert str[i..][1..] == str[i + 1..];
        i, j := i + 1, j + 1;
    }
    MatchesEmpty(str[i..]);
    assert pattern[j..] == "";
    return i == |str|;
  }
}
