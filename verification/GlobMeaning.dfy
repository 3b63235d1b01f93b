/**
  What patterns of the matcher of storage.cpp (lines 204-319) mean, character by character, and where that is
  not what section 2.13 of the POSIX shell language says.
 */
module GlobMeaning {
  import opened Glob

  predicate Letters(a: char, b: char) {
    'A' <= a <= 'Z' && b as int == a as int + 32
  }

  /** The same character, or when case does not count, the same letter. */
  predicate Alike(a: char, b: char, fold: bool) {
    a == b || (fold && (Letters(a, b) || Letters(b, a)))
  }

  lemma FoldMeans(a: char, b: char, fold: bool)
    ensures Fold(a, fold) == Fold(b, fold) <==> Alike(a, b, fold)
  {
  }

  /** A '?' is for any character, but not for a dot at the beginning. */
  lemma QuestionMeans(p: string, s: string, period: bool, fold: bool)
    ensures Wanted("?" + p, s, period, fold) <==>
              s != "" && !(period && s[0] == '.') && Wanted(p, s[1..], false, fold)
  {
    assert ("?" + p)[1..] == p;
    AnyHead("?" + p, s, period, fold);
  }

  /** Any other character than '?', '*', '[' and a backslash is for itself. */
  lemma CharacterMeans(c: char, p: string, s: string, period: bool, fold: bool)
    requires c !in "?*[\\"
    ensures Wanted([c] + p, s, period, fold) <==> s != "" && Alike(c, s[0], fold) && Wanted(p, s[1..], false, fold)
  {
    var q := [c] + p;
    assert q[1..] == p && q[0] == c;
    assert c != '?' && c != '*' && c != '[' && c != '\\' by {
      assert "?*[\\"[0] == '?' && "?*[\\"[1] == '*' && "?*[\\"[2] == '[' && "?*[\\"[3] == '\\';
    }
    LiteralHead(q, s, period, fold);
    if s != "" {
      FoldMeans(c, s[0], fold);
    }
  }

  // ----- Stars -----

  /** The cutting without the condition that a star leaves something. */
  ghost predicate Covers(tokens: seq<Token>, s: string, fold: bool, pieces: seq<string>) {
    && |pieces| == |tokens| && Concat(pieces) == s
    && forall i :: 0 <= i < |tokens| ==> Fits(tokens[i], pieces[i], fold)
  }

  lemma {:induction false} ConcatLong(pieces: seq<string>, i: nat)
    requires i < |pieces|
    ensures |pieces[i]| <= |Concat(pieces)|
    decreases |pieces|
  {
    if i > 0 {
      ConcatLong(pieces[1..], i - 1);
    }
  }

  /** When every element but a star stands for a character, a match is any cutting into pieces that fit. */
  lemma MatchesCovers(tokens: seq<Token>, s: string, fold: bool)
    requires Nothing !in tokens
    ensures Matches(tokens, s, fold) <==> exists pieces :: Covers(tokens, s, fold, pieces)
  {
    forall pieces | Covers(tokens, s, fold, pieces)
      ensures Cut(tokens, s, fold, pieces)
    {
      forall i | 0 <= i < |tokens| && tokens[i].Star? && More(tokens[i + 1..])
        ensures LeavesAt(tokens, pieces, i)
      {
        var j :| 0 <= j < |tokens[i + 1..]| && !tokens[i + 1..][j].Star?;
        assert tokens[i + 1..][j] == tokens[i + 1 + j] && pieces[i + 1..][j] == pieces[i + 1 + j];
        assert Fits(tokens[i + 1 + j], pieces[i + 1 + j], fold);
        ConcatLong(pieces[i + 1..], j);
      }
    }
    if Matches(tokens, s, fold) {
      var pieces :| Cut(tokens, s, fold, pieces);
      assert Covers(tokens, s, fold, pieces);
    }
  }

  lemma {:induction false} NoEscape(p: string)
    requires '\\' !in p
    ensures Nothing !in Tokens(p)
    decreases |p|
  {
    if p != [] {
      if p[0] == '[' {
        match Members(Inside(p[1..]))
        case Unterminated =>
        case Closed(members, rest) =>
          BracketIsWithin(Inside(p[1..]));
          NoEscape(rest);
      } else {
        NoEscape(p[1..]);
      }
    }
  }

  /** What follows a bracket is the end of the pattern. */
  lemma {:induction false} BracketIsWithin(p: string)
    ensures match Members(p)
            case Unterminated => true
            case Closed(_, rest) => |rest| <= |p| && rest == p[|p| - |rest|..]
    decreases |p|
  {
    if !(p != [] && p[0] == ']') {
      match FirstMember(p)
      case NoMember =>
      case Listing(m, rest) =>
        assert rest == p[|p| - |rest|..];
        BracketIsWithin(rest);
    }
  }

  /** Without backslashes a star is for any part of the string, but not for a dot at the beginning. */
  lemma StarMeans(p: string, s: string, period: bool, fold: bool)
    requires '\\' !in p
    ensures Wanted("*" + p, s, period, fold) <==>
              !(period && s != "" && s[0] == '.') && exists k :: 0 <= k <= |s| && Wanted(p, s[k..], false, fold)
  {
    assert ("*" + p)[1..] == p;
    assert Tokens("*" + p) == [Star] + Tokens(p);
    MatchesStar(Tokens(p), s, fold);
    NoEscape(p);
    forall k | 0 <= k <= |s| && Matches(Tokens(p), s[k..], fold)
      ensures exists j :: EndsAt(Tokens(p), s, fold, j)
    {
      if More(Tokens(p)) && k == |s| {
        NoneForNothing(Tokens(p), fold);
      }
      assert EndsAt(Tokens(p), s, fold, k);
    }
    if j :| EndsAt(Tokens(p), s, fold, j) {
      assert Wanted(p, s[j..], false, fold);
    }
  }

  /** When some element stands for a character, nothing is not matched. */
  lemma NoneForNothing(tokens: seq<Token>, fold: bool)
    requires Nothing !in tokens && More(tokens)
    ensures !Matches(tokens, "", fold)
  {
    if Matches(tokens, "", fold) {
      var pieces :| Cut(tokens, "", fold, pieces);
      var i :| 0 <= i < |tokens| && !tokens[i].Star?;
      assert Fits(tokens[i], pieces[i], fold);
      ConcatLong(pieces, i);
    }
  }

  // ----- Brackets -----

  /** Neither special in a bracket nor at its beginning. */
  predicate Ordinary(c: char) {
    c != ']' && c != '\\' && c != '-' && c != '!' && c != '^'
  }

  function Singles(cs: string): seq<Member> {
    if cs == [] then [] else [Single(cs[0])] + Singles(cs[1..])
  }

  lemma {:induction false} ListRead(cs: string, p: string)
    requires forall i :: 0 <= i < |cs| ==> Ordinary(cs[i])
    ensures Members(cs + "]" + p) == Closed(Singles(cs), p)
    decreases |cs|
  {
    var q := cs + "]" + p;
    if cs == [] {
      assert q[1..] == p;
    } else {
      assert q[1..] == cs[1..] + "]" + p;
      assert FirstMember(q) == Listing(Single(cs[0]), cs[1..] + "]" + p);
      ListRead(cs[1..], p);
    }
  }

  lemma {:induction false} SinglesHold(cs: string, c: char, fold: bool)
    ensures Contains(Singles(cs), c, fold) <==> exists i :: 0 <= i < |cs| && Alike(cs[i], c, fold)
    decreases |cs|
  {
    if cs != [] {
      var m, rest := Single(cs[0]), Singles(cs[1..]);
      SinglesHold(cs[1..], c, fold);
      FoldMeans(cs[0], c, fold);
      assert Contains([m] + rest, c, fold) <==> Listed(m, c, fold) || Contains(rest, c, fold) by {
        assert forall i :: 0 <= i < |rest| ==> ([m] + rest)[i + 1] == rest[i];
        assert ([m] + rest)[0] == m;
      }
      assert forall i :: 0 <= i < |cs[1..]| ==> cs[1..][i] == cs[i + 1];
    }
  }

  /** What a bracket lists, when it is read. */
  lemma BracketMeans(b: string, members: seq<Member>, p: string, s: string, period: bool, fold: bool)
    requires Members(Inside(b)) == Closed(members, p)
    ensures Wanted("[" + b, s, period, fold) <==>
              s != "" && Contains(members, s[0], fold) != Negated(b) && Wanted(p, s[1..], false, fold)
  {
    var q := "[" + b;
    assert q[1..] == b;
    ClassHead(q, s, period, fold, p, s != "" && Contains(members, s[0], fold) != Negated(b));
  }

  /** "[abc]" is for one of the characters, and "[!abc]" or "[^abc]" for one that is none of them. */
  lemma ListMeans(cs: string, p: string, s: string, period: bool, fold: bool, sign: char)
    requires cs != [] && (forall i :: 0 <= i < |cs| ==> Ordinary(cs[i])) && (sign == '!' || sign == '^')
    ensures Wanted("[" + cs + "]" + p, s, period, fold) <==>
              s != "" && (exists i :: 0 <= i < |cs| && Alike(cs[i], s[0], fold)) && Wanted(p, s[1..], false, fold)
    ensures Wanted("[" + [sign] + cs + "]" + p, s, period, fold) <==>
              s != "" && !(exists i :: 0 <= i < |cs| && Alike(cs[i], s[0], fold)) && Wanted(p, s[1..], false, fold)
  {
    var b := cs + "]" + p;
    ListRead(cs, p);
    assert b[0] == cs[0] && "[" + b == "[" + cs + "]" + p;
    BracketMeans(b, Singles(cs), p, s, period, fold);
    var n := [sign] + b;
    assert n[1..] == b && "[" + n == "[" + [sign] + cs + "]" + p;
    BracketMeans(n, Singles(cs), p, s, period, fold);
    if s != "" {
      SinglesHold(cs, s[0], fold);
    }
  }

  /** "[a-z]" is for a character between the two, both of them included. */
  lemma RangeMeans(a: char, z: char, p: string, s: string, period: bool)
    requires Ordinary(a) && z != ']' && z != '\\'
    ensures Wanted("[" + [a] + "-" + [z] + "]" + p, s, period, false) <==>
              s != "" && a <= s[0] <= z && Wanted(p, s[1..], false, false)
  {
    var b := [a] + "-" + [z] + "]" + p;
    var end := "]" + p;
    assert b[1..] == "-" + [z] + end && b[1..][1..] == [z] + end && ([z] + end)[1..] == end;
    assert FirstMember(b) == Listing(Range(a, z), end);
    assert end[1..] == p;
    assert Members(b) == Closed([Range(a, z)] + [], p);
    assert [Range(a, z)] + [] == [Range(a, z)];
    assert "[" + b == "[" + [a] + "-" + [z] + "]" + p;
    BracketMeans(b, [Range(a, z)], p, s, period, false);
    if s != "" {
      assert Contains([Range(a, z)], s[0], false) <==> Listed([Range(a, z)][0], s[0], false);
    }
  }

  /** In a bracket a backslash quotes: "[\]]" is for a closing bracket. */
  lemma QuotedInBracket(c: char, p: string, s: string, period: bool, fold: bool)
    ensures Wanted("[\\" + [c] + "]" + p, s, period, fold) <==>
              s != "" && Alike(c, s[0], fold) && Wanted(p, s[1..], false, fold)
  {
    var b := "\\" + [c] + "]" + p;
    var end := "]" + p;
    assert b[2..] == end && end[1..] == p && !Ranges(end);
    assert FirstMember(b) == Listing(Single(c), end);
    assert Members(b) == Closed([Single(c)] + [], p);
    assert [Single(c)] + [] == [Single(c)];
    assert "[" + b == "[\\" + [c] + "]" + p;
    BracketMeans(b, [Single(c)], p, s, period, fold);
    if s != "" {
      assert Contains([Single(c)], s[0], fold) <==> Listed([Single(c)][0], s[0], fold);
      FoldMeans(c, s[0], fold);
    }
  }

  // ----- Backslashes -----

  /**
    Outside a bracket a quoted character should be for itself. It is for nothing: a backslash and a character
    may be taken out of the pattern, and behind a star they keep it from ending the string.
   */
  lemma EscapeMeans(c: char, p: string, s: string, period: bool, fold: bool)
    ensures Wanted("\\" + [c] + p, s, period, fold) <==> Wanted(p, s, period, fold)
    ensures Wanted("\\" + [c], s, period, fold) <==> s == ""
    ensures !Wanted("*\\" + [c], s, period, fold)
  {
    var q := "\\" + [c] + p;
    assert q[2..] == p;
    EscapeHead(q, s, period, fold);
    EscapedAlone(c, s, period, fold);
    EscapedBehindStar(c, s, period, fold);
  }

  lemma EscapedAlone(c: char, s: string, period: bool, fold: bool)
    ensures Tokens("\\" + [c]) == [Nothing] + []
    ensures Wanted("\\" + [c], s, period, fold) <==> s == ""
  {
    var e := "\\" + [c];
    assert e[2..] == "" && e != [];
    EscapeHead(e, s, period, fold);
    MatchesNone(s, fold);
    assert Tokens("") == [] && Leading([]) == Nothing;
  }

  lemma EscapedBehindStar(c: char, s: string, period: bool, fold: bool)
    ensures !Wanted("*\\" + [c], s, period, fold)
  {
    var e, q := "\\" + [c], "*\\" + [c];
    assert q[1..] == e;
    EscapedAlone(c, s, period, fold);
    assert Tokens(q) == [Star] + Tokens(e);
    MatchesStar(Tokens(e), s, fold);
    assert More(Tokens(e)) by {
      assert Tokens(e)[0] == Nothing;
    }
    if k :| EndsAt(Tokens(e), s, fold, k) {
      MatchesNothing([], s[k..], fold);
      MatchesNone(s[k..], fold);
    }
  }
}
