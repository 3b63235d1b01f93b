/**
  The file name matcher of storage.cpp (lines 205-319) for the flags FNM_PERIOD and FNM_CASEFOLD, against
  a declarative reading of patterns: a string is matched when it can be cut into pieces, one for each
  element of the pattern, that fit. Outside brackets a backslash and what follows it stand for nothing, which
  is not what section 2.13 of the POSIX shell language says.
 */
module Glob {

  const DOT := '.'

  function ToLower(c: char): char {
    if 'A' <= c <= 'Z' then c + (32 as char) else c
  }

  function Fold(c: char, fold: bool): char {
    if fold then ToLower(c) else c
  }

  // ----- Patterns -----

  /** What a bracket lists. */
  datatype Member = Single(c: char) | Range(lo: char, hi: char)

  datatype Token = Any | Star | Class(negate: bool, members: seq<Member>) | Literal(c: char) | Nothing | Broken

  datatype Bracket = Unterminated | Closed(members: seq<Member>, rest: string)

  /** A character of a bracket, which a backslash may quote, and the rest. */
  datatype Quoted = Missing | Quoted(c: char, rest: string)

  function Unquote(p: string): (q: Quoted)
    ensures q.Quoted? ==> |q.rest| < |p|
  {
    if p == [] then Missing
    else if p[0] != '\\' then Quoted(p[0], p[1..])
    else if |p| == 1 then Missing
    else Quoted(p[1], p[2..])
  }

  predicate Ranges(p: string) {
    |p| >= 2 && p[0] == '-' && p[1] != ']'
  }

  /** The first member, and the rest; a '-' before the closing bracket, or at the end, stands for itself. */
  datatype Listing = NoMember | Listing(m: Member, rest: string)

  function FirstMember(p: string): (l: Listing)
    ensures l.Listing? ==> |l.rest| < |p|
  {
    match Unquote(p)
    case Missing => NoMember
    case Quoted(c, rest) =>
      if !Ranges(rest) then Listing(Single(c), rest)
      else
        match Unquote(rest[1..])
        case Missing => NoMember
        case Quoted(c2, rest2) => Listing(Range(c, c2), rest2)
  }

  /** The members up to the closing bracket. */
  function Members(p: string): (b: Bracket)
    ensures b.Closed? ==> |b.rest| < |p|
    decreases |p|
  {
    if p != [] && p[0] == ']' then Closed([], p[1..])
    else
      match FirstMember(p)
      case NoMember => Unterminated
      case Listing(m, rest) =>
        match Members(rest)
        case Unterminated => Unterminated
        case Closed(members, after) => Closed([m] + members, after)
  }

  predicate Negated(p: string) { p != [] && (p[0] == '!' || p[0] == '^') }

  function Inside(p: string): string {
    if Negated(p) then p[1..] else p
  }

  /** Behind a backslash and the character that it is for. */
  function AfterEscape(p: string): string
    requires p != []
  {
    if |p| >= 2 then p[2..] else []
  }

  /** The elements of a pattern. */
  function Tokens(p: string): seq<Token>
    decreases |p|
  {
    if p == [] then []
    else if p[0] == '?' then [Any] + Tokens(p[1..])
    else if p[0] == '*' then [Star] + Tokens(p[1..])
    else if p[0] == '[' then
      match Members(Inside(p[1..]))
      case Unterminated => [Broken]
      case Closed(members, rest) => [Class(Negated(p[1..]), members)] + Tokens(rest)
    else if p[0] == '\\' then [Nothing] + Tokens(AfterEscape(p))
    else [Literal(p[0])] + Tokens(p[1..])
  }

  predicate Listed(m: Member, c: char, fold: bool) {
    match m
    case Single(x) => Fold(x, fold) == Fold(c, fold)
    case Range(lo, hi) => Fold(lo, fold) <= Fold(c, fold) <= Fold(hi, fold)
  }

  predicate Contains(members: seq<Member>, c: char, fold: bool) {
    exists i :: 0 <= i < |members| && Listed(members[i], c, fold)
  }

  /** A piece of the string that an element can stand for. */
  predicate Fits(t: Token, piece: string, fold: bool) {
    match t
    case Any => |piece| == 1
    case Star => true
    case Class(negate, members) => |piece| == 1 && Contains(members, piece[0], fold) != negate
    case Literal(c) => |piece| == 1 && Fold(c, fold) == Fold(piece[0], fold)
    case Nothing => piece == ""
    case Broken => false
  }

  function Concat(pieces: seq<string>): string {
    if pieces == [] then "" else pieces[0] + Concat(pieces[1..])
  }

  /** Some element is not a star. */
  predicate More(tokens: seq<Token>) {
    exists i :: 0 <= i < |tokens| && !tokens[i].Star?
  }

  /** A star leaves something of the string for what follows it, unless that is only stars. */
  predicate LeavesAt(tokens: seq<Token>, pieces: seq<string>, i: nat)
    requires i < |pieces| == |tokens|
  {
    tokens[i].Star? && More(tokens[i + 1..]) ==> Concat(pieces[i + 1..]) != ""
  }

  ghost predicate Leaves(tokens: seq<Token>, pieces: seq<string>)
    requires |pieces| == |tokens|
  {
    forall i :: 0 <= i < |tokens| ==> LeavesAt(tokens, pieces, i)
  }

  ghost predicate Cut(tokens: seq<Token>, s: string, fold: bool, pieces: seq<string>) {
    && |pieces| == |tokens| && Concat(pieces) == s && Leaves(tokens, pieces)
    && forall i :: 0 <= i < |tokens| ==> Fits(tokens[i], pieces[i], fold)
  }

  ghost predicate Matches(tokens: seq<Token>, s: string, fold: bool) {
    exists pieces :: Cut(tokens, s, fold, pieces)
  }

  /** The first element that stands for anything. */
  function Leading(tokens: seq<Token>): Token {
    if tokens == [] then Nothing else if tokens[0].Nothing? then Leading(tokens[1..]) else tokens[0]
  }

  /** A leading dot is not for a '*' or '?' at the beginning. */
  predicate DotRefused(tokens: seq<Token>, s: string, period: bool) {
    period && s != [] && s[0] == DOT && (Leading(tokens).Any? || Leading(tokens).Star?)
  }

  // ----- Element by element -----

  lemma MatchesNone(s: string, fold: bool)
    ensures Matches([], s, fold) <==> s == []
  {
    if s == [] {
      assert Cut([], s, fold, []);
    }
  }

  /** What the first element takes must leave something. */
  predicate Allowed(t: Token, tokens: seq<Token>, rest: string) {
    t.Star? && More(tokens) ==> rest != ""
  }

  lemma LeavesLater(t: Token, tokens: seq<Token>, piece: string, pieces: seq<string>, i: nat)
    requires i < |pieces| == |tokens|
    ensures LeavesAt([t] + tokens, [piece] + pieces, i + 1) <==> LeavesAt(tokens, pieces, i)
  {
    assert ([t] + tokens)[i + 2..] == tokens[i + 1..] && ([piece] + pieces)[i + 2..] == pieces[i + 1..];
  }

  lemma LeavesFirst(t: Token, tokens: seq<Token>, piece: string, pieces: seq<string>)
    requires |pieces| == |tokens|
    ensures Leaves([t] + tokens, [piece] + pieces) <==> Allowed(t, tokens, Concat(pieces)) && Leaves(tokens, pieces)
  {
    var all, parts := [t] + tokens, [piece] + pieces;
    assert all[1..] == tokens && parts[1..] == pieces;
    assert LeavesAt(all, parts, 0) <==> Allowed(t, tokens, Concat(pieces));
    forall i | 0 <= i < |tokens|
      ensures LeavesAt(all, parts, i + 1) <==> LeavesAt(tokens, pieces, i)
    {
      LeavesLater(t, tokens, piece, pieces, i);
    }
    if Allowed(t, tokens, Concat(pieces)) && Leaves(tokens, pieces) {
      forall i | 0 <= i < |all|
        ensures LeavesAt(all, parts, i)
      {
        assert i > 0 ==> LeavesAt(tokens, pieces, i - 1);
      }
    }
  }

  /** The first element takes the first k characters. */
  lemma MatchesFrom(t: Token, tokens: seq<Token>, s: string, fold: bool, k: nat)
    requires k <= |s| && Fits(t, s[..k], fold) && Matches(tokens, s[k..], fold) && Allowed(t, tokens, s[k..])
    ensures Matches([t] + tokens, s, fold)
  {
    var pieces :| Cut(tokens, s[k..], fold, pieces);
    var all := [s[..k]] + pieces;
    assert all[1..] == pieces;
    LeavesFirst(t, tokens, s[..k], pieces);
    assert Cut([t] + tokens, s, fold, all);
  }

  lemma MatchesInto(t: Token, tokens: seq<Token>, s: string, fold: bool) returns (k: nat)
    requires Matches([t] + tokens, s, fold)
    ensures k <= |s| && Fits(t, s[..k], fold) && Matches(tokens, s[k..], fold) && Allowed(t, tokens, s[k..])
  {
    var all := [t] + tokens;
    var pieces :| Cut(all, s, fold, pieces);
    k := |pieces[0]|;
    assert s[..k] == pieces[0] && s[k..] == Concat(pieces[1..]);
    assert Fits(all[0], pieces[0], fold);
    LeavesFirst(t, tokens, pieces[0], pieces[1..]);
    assert pieces == [pieces[0]] + pieces[1..];
    forall i | 0 <= i < |tokens|
      ensures Fits(tokens[i], pieces[1..][i], fold)
    {
      assert Fits(all[i + 1], pieces[i + 1], fold);
    }
    assert Cut(tokens, s[k..], fold, pieces[1..]);
  }

  /** An element that takes exactly one character. */
  lemma MatchesOne(t: Token, tokens: seq<Token>, s: string, fold: bool)
    requires !t.Star? && !t.Nothing?
    ensures Matches([t] + tokens, s, fold) <==> s != [] && Fits(t, [s[0]], fold) && Matches(tokens, s[1..], fold)
  {
    if Matches([t] + tokens, s, fold) {
      var k := MatchesInto(t, tokens, s, fold);
      assert s[..1] == [s[0]];
    }
    if s != [] && Fits(t, [s[0]], fold) && Matches(tokens, s[1..], fold) {
      assert s[..1] == [s[0]];
      MatchesFrom(t, tokens, s, fold, 1);
    }
  }

  lemma MatchesNothing(tokens: seq<Token>, s: string, fold: bool)
    ensures Matches([Nothing] + tokens, s, fold) <==> Matches(tokens, s, fold)
  {
    assert s[..0] == "" && s[0..] == s;
    if Matches([Nothing] + tokens, s, fold) {
      var k := MatchesInto(Nothing, tokens, s, fold);
      assert k == 0;
    }
    if Matches(tokens, s, fold) {
      MatchesFrom(Nothing, tokens, s, fold, 0);
    }
  }

  /** Where a star may end. */
  ghost predicate EndsAt(tokens: seq<Token>, s: string, fold: bool, k: int) {
    0 <= k <= |s| && (More(tokens) ==> k < |s|) && Matches(tokens, s[k..], fold)
  }

  lemma MatchesStar(tokens: seq<Token>, s: string, fold: bool)
    ensures Matches([Star] + tokens, s, fold) <==> exists k :: EndsAt(tokens, s, fold, k)
  {
    if Matches([Star] + tokens, s, fold) {
      var k := MatchesInto(Star, tokens, s, fold);
      assert EndsAt(tokens, s, fold, k);
    }
    if k :| EndsAt(tokens, s, fold, k) {
      MatchesFrom(Star, tokens, s, fold, k);
    }
  }

  lemma MoreStars(tokens: seq<Token>)
    ensures More([Star] + tokens) <==> More(tokens)
  {
    var all := [Star] + tokens;
    forall i | 0 <= i < |tokens|
      ensures all[i + 1] == tokens[i]
    {
    }
    if i :| 0 <= i < |all| && !all[i].Star? {
      assert tokens[i - 1] == all[i];
    }
    if i :| 0 <= i < |tokens| && !tokens[i].Star? {
      assert all[i + 1] == tokens[i];
    }
  }

  /** Several stars are as good as one. */
  lemma StarStar(tokens: seq<Token>, s: string, fold: bool)
    ensures Matches([Star] + ([Star] + tokens), s, fold) <==> Matches([Star] + tokens, s, fold)
  {
    MatchesStar([Star] + tokens, s, fold);
    MatchesStar(tokens, s, fold);
    MoreStars(tokens);
    if Matches([Star] + ([Star] + tokens), s, fold) {
      var k :| EndsAt([Star] + tokens, s, fold, k);
      MatchesStar(tokens, s[k..], fold);
      var j :| EndsAt(tokens, s[k..], fold, j);
      assert s[k..][j..] == s[k + j..];
      assert EndsAt(tokens, s, fold, k + j);
    }
    if Matches([Star] + tokens, s, fold) {
      var k :| EndsAt(tokens, s, fold, k);
      assert s[0..] == s;
      assert EndsAt([Star] + tokens, s, fold, 0);
    }
  }

  lemma StarLast(s: string, fold: bool)
    ensures Matches([Star], s, fold)
  {
    MatchesNone([], fold);
    assert s[|s|..] == [];
    MatchesFrom(Star, [], s, fold, |s|);
    assert [Star] + [] == [Star];
  }

  // ----- The matcher -----

  /** The pattern matches, and a leading dot is not in the way. */
  ghost predicate Wanted(p: string, s: string, period: bool, fold: bool) {
    Matches(Tokens(p), s, fold) && !DotRefused(Tokens(p), s, period)
  }

  /** What has been read and what is to come make up the bracket. */
  ghost predicate Reading(whole: Bracket, done: seq<Member>, rest: Bracket) {
    if rest.Unterminated? then whole.Unterminated? else whole == Closed(done + rest.members, rest.rest)
  }

  lemma ReadingMore(whole: Bracket, done: seq<Member>, p: string)
    requires !(p != [] && p[0] == ']') && Reading(whole, done, Members(p))
    ensures match FirstMember(p)
            case NoMember => whole.Unterminated?
            case Listing(m, rest) => Reading(whole, done + [m], Members(rest))
  {
    match FirstMember(p)
    case NoMember =>
    case Listing(m, rest) =>
      if Members(rest).Closed? {
        assert done + ([m] + Members(rest).members) == (done + [m]) + Members(rest).members;
      }
  }

  /** A quoted character, by its place in the pattern. */
  lemma UnquoteAt(pattern: string, from: nat)
    requires from <= |pattern|
    ensures Unquote(pattern[from..])
            == if from == |pattern| then Missing
               else if pattern[from] != '\\' then Quoted(pattern[from], pattern[from + 1..])
               else if from + 1 == |pattern| then Missing
               else Quoted(pattern[from + 1], pattern[from + 2..])
  {
    var p := pattern[from..];
    if p != [] {
      assert p[0] == pattern[from] && p[1..] == pattern[from + 1..];
    }
    if |p| > 1 {
      assert p[1] == pattern[from + 1] && p[2..] == pattern[from + 2..];
    }
  }

  lemma ContainsMore(done: seq<Member>, m: Member, c: char, fold: bool)
    ensures Contains(done + [m], c, fold) <==> Contains(done, c, fold) || Listed(m, c, fold)
  {
    var all := done + [m];
    if Contains(done, c, fold) {
      var i :| 0 <= i < |done| && Listed(done[i], c, fold);
      assert all[i] == done[i];
    }
    if Listed(m, c, fold) {
      assert all[|done|] == m;
    }
  }

  /** What rangematch is to find in a bracket. */
  ghost predicate Found(p: string, test: char, fold: bool, next: string, ok: bool) {
    match Members(Inside(p))
    case Unterminated => !ok
    case Closed(members, rest) => if Contains(members, test, fold) != Negated(p) then ok && next == rest else !ok
  }

  /** A character of a bracket, unquoted, and the index behind it; -1 at the end of the pattern. */
  method ReadQuoted(pattern: string, start: nat) returns (c: char, next: int)
    requires start < |pattern|
    ensures match Unquote(pattern[start..])
            case Missing => next == -1
            case Quoted(x, rest) => c == x && start < next <= |pattern| && pattern[next..] == rest
  {
    UnquoteAt(pattern, start);
    c, next := pattern[start], start + 1;
    if c == '\\' {
      if next == |pattern| {
        return c, -1;
      }
      c, next := pattern[next], next + 1;
    }
  }

  /** One member of a bracket, whether it lists the test character, and the index behind it; -1 at the end. */
  method ReadMember(pattern: string, start: nat, test: char, fold: bool) returns (listed: bool, next: int)
    requires start < |pattern|
    ensures match FirstMember(pattern[start..])
            case NoMember => next == -1
            case Listing(m, rest) =>
              listed == Listed(m, test, fold) && start < next <= |pattern| && pattern[next..] == rest
  {
    var folded := Fold(test, fold);
    var c;
    c, next := ReadQuoted(pattern, start);
    if next == -1 {
      return false, -1;
    }
    ghost var rest := pattern[next..];
    if next + 1 < |pattern| && pattern[next] == '-' && pattern[next + 1] != ']' {
      assert rest[1..] == pattern[next + 1..];
      var c2;
      c2, next := ReadQuoted(pattern, next + 1);
      if next == -1 {
        return false, -1;
      }
      listed := Fold(c, fold) <= folded <= Fold(c2, fold);
    } else {
      listed := Fold(c, fold) == folded;
    }
  }

  /** rangematch, from the index after the opening bracket; -1 stands for NULL. */
  method Rangematch(pattern: string, start: nat, test: char, fold: bool) returns (next: int)
    requires start <= |pattern|
    ensures next == -1 || start <= next <= |pattern|
    ensures Found(pattern[start..], test, fold, if next == -1 then [] else pattern[next..], next != -1)
  {
    var negate := start < |pattern| && (pattern[start] == '!' || pattern[start] == '^');
    var i: nat := if negate then start + 1 else start;
    assert negate == Negated(pattern[start..]) && pattern[i..] == Inside(pattern[start..]);
    var ok := false;
    ghost var whole, done: seq<Member> := Members(pattern[i..]), [];
    while i < |pattern| && pattern[i] != ']'
      invariant start <= i <= |pattern|
      invariant Reading(whole, done, Members(pattern[i..])) && ok == Contains(done, test, fold)
      decreases |pattern| - i
    {
      ghost var p := pattern[i..];
      ReadingMore(whole, done, p);
      var listed, behind := ReadMember(pattern, i, test, fold);
      if behind == -1 {
        return -1;
      }
      i := behind;
      ok := ok || listed;
      ContainsMore(done, FirstMember(p).m, test, fold);
      done := done + [FirstMember(p).m];
    }
    if i == |pattern| {
      return -1;
    }
    i := i + 1;
    assert done + [] == done;
    next := if ok == negate then -1 else i;
  }

  lemma WantedRest(p: string, s: string, period: bool, fold: bool, t: Token, rest: seq<Token>)
    requires Tokens(p) == [t] + rest && !t.Star? && !t.Nothing?
    ensures Wanted(p, s, period, fold) <==>
              s != [] && Fits(t, [s[0]], fold) && Matches(rest, s[1..], fold) && !(t.Any? && period && s[0] == DOT)
  {
    MatchesOne(t, rest, s, fold);
  }

  lemma BrokenBracket(p: string, s: string, fold: bool)
    requires p != [] && p[0] == '[' && Members(Inside(p[1..])).Unterminated?
    ensures !Matches(Tokens(p), s, fold)
  {
    assert Tokens(p) == [Broken] + [];
    MatchesOne(Broken, [], s, fold);
  }

  /** Stars in a row, then the rest tried from every place, but not from the end. */
  lemma StarTries(rest: string, s: string, fold: bool)
    requires rest != [] && rest[0] != '*'
    ensures Matches([Star] + Tokens(rest), s, fold) <==> exists k :: 0 <= k < |s| && Matches(Tokens(rest), s[k..], fold)
  {
    var tokens := Tokens(rest);
    MatchesStar(tokens, s, fold);
    assert !tokens[0].Star?;
    if Matches([Star] + tokens, s, fold) {
      var k :| EndsAt(tokens, s, fold, k);
    }
    if k :| 0 <= k < |s| && Matches(tokens, s[k..], fold) {
      assert EndsAt(tokens, s, fold, k);
    }
  }

  /** A '?', a bracket or a character at the head of the pattern, against the first character. */
  ghost predicate Head(p: string, rest: string, s: string, period: bool, fold: bool, fits: bool)
    requires s != []
  {
    Wanted(p, s, period, fold) <==> fits && Matches(Tokens(rest), s[1..], fold)
  }

  lemma AnyHead(p: string, s: string, period: bool, fold: bool)
    requires p != [] && p[0] == '?'
    ensures s == [] ==> !Wanted(p, s, period, fold)
    ensures s != [] ==> Head(p, p[1..], s, period, fold, !(period && s[0] == DOT))
  {
    WantedRest(p, s, period, fold, Any, Tokens(p[1..]));
  }

  lemma LiteralHead(p: string, s: string, period: bool, fold: bool)
    requires p != [] && p[0] != '?' && p[0] != '*' && p[0] != '[' && p[0] != '\\'
    ensures s == [] ==> !Wanted(p, s, period, fold)
    ensures s != [] ==> Head(p, p[1..], s, period, fold, Fold(p[0], fold) == Fold(s[0], fold))
  {
    WantedRest(p, s, period, fold, Literal(p[0]), Tokens(p[1..]));
  }

  lemma ClassHead(p: string, s: string, period: bool, fold: bool, next: string, ok: bool)
    requires p != [] && p[0] == '[' && (s != [] ==> Found(p[1..], s[0], fold, next, ok))
    ensures s == [] ==> !Wanted(p, s, period, fold)
    ensures s != [] ==> Head(p, next, s, period, fold, ok)
  {
    var b := Members(Inside(p[1..]));
    if b.Unterminated? {
      BrokenBracket(p, s, fold);
    } else {
      WantedRest(p, s, period, fold, Class(Negated(p[1..]), b.members), Tokens(b.rest));
    }
  }

  /** A backslash is stepped over with what follows it. */
  lemma EscapeHead(p: string, s: string, period: bool, fold: bool)
    requires p != [] && p[0] == '\\'
    ensures Wanted(p, s, period, fold) <==> Wanted(AfterEscape(p), s, period, fold)
  {
    MatchesNothing(Tokens(AfterEscape(p)), s, fold);
    assert Tokens(p)[1..] == Tokens(AfterEscape(p));
  }

  /** A match for the rest of the string after the beginning is one without the rule about dots. */
  lemma WantedLater(p: string, s: string, fold: bool)
    ensures Wanted(p, s, false, fold) <==> Matches(Tokens(p), s, fold)
  {
  }

  /** fnmatch: whether it returns 0. */
  method Fnmatch(pattern: string, s: string, period: bool, fold: bool) returns (matched: bool)
    ensures matched <==> Wanted(pattern, s, period, fold)
    decreases |pattern|, 0
  {
    var i: nat, j: nat := 0, 0;
    assert pattern[0..] == pattern && s[0..] == s;
    while i < |pattern|
      invariant i <= |pattern| && j <= |s|
      invariant Wanted(pattern, s, period, fold) <==> Wanted(pattern[i..], s[j..], period && j == 0, fold)
      decreases |pattern| - i
    {
      ghost var p, t, first := pattern[i..], s[j..], period && j == 0;
      var c := pattern[i];
      i := i + 1;
      if c == '?' {
        AnyHead(p, t, first, fold);
        if j == |s| || (s[j] == DOT && period && j == 0) {
          return false;
        }
        WantedLater(pattern[i..], s[j + 1..], fold);
        j := j + 1;
      } else if c == '*' {
        matched := StarCase(pattern, i, s, j, period, fold);
        return;
      } else if c == '[' {
        if j == |s| {
          ClassHead(p, t, first, fold, [], false);
          return false;
        }
        var next := Rangematch(pattern, i, s[j], fold);
        assert p[1..] == pattern[i..];
        ClassHead(p, t, first, fold, if next == -1 then [] else pattern[next..], next != -1);
        if next == -1 {
          return false;
        }
        WantedLater(pattern[next..], s[j + 1..], fold);
        i := next;
        j := j + 1;
      } else if c == '\\' {
        EscapeHead(p, t, first, fold);
        if i < |pattern| {
          assert p[2..] == pattern[i + 1..];
          i := i + 1;
        }
      } else {
        LiteralHead(p, t, first, fold);
        if j == |s| || Fold(c, fold) != Fold(s[j], fold) {
          return false;
        }
        WantedLater(pattern[i..], s[j + 1..], fold);
        j := j + 1;
      }
    }
    MatchesNone(s[j..], fold);
    matched := j == |s|;
  }

  /** The case '*', from the index after the star. */
  method StarCase(pattern: string, start: nat, s: string, j: nat, period: bool, fold: bool) returns (matched: bool)
    requires 0 < start <= |pattern| && j <= |s| && pattern[start - 1] == '*'
    ensures matched <==> Wanted(pattern[start - 1..], s[j..], period && j == 0, fold)
    decreases |pattern| - 1, 2
  {
    var i := start;
    ghost var t := s[j..];
    assert pattern[start - 1..][1..] == pattern[start..];
    while i < |pattern| && pattern[i] == '*'
      invariant start <= i <= |pattern|
      invariant Matches(Tokens(pattern[start - 1..]), t, fold) <==> Matches([Star] + Tokens(pattern[i..]), t, fold)
    {
      assert pattern[i..][1..] == pattern[i + 1..];
      StarStar(Tokens(pattern[i + 1..]), t, fold);
      i := i + 1;
    }
    if j < |s| && s[j] == DOT && period && j == 0 {
      return false;
    }
    if i == |pattern| {
      StarLast(t, fold);
      assert Tokens(pattern[i..]) == [] && [Star] + [] == [Star];
      return true;
    }
    StarTries(pattern[i..], t, fold);
    matched := TryFrom(pattern[i..], s[j..], fold);
  }

  /** The general case: the rest of the pattern from every place of the string, but not from its end. */
  method TryFrom(rest: string, s: string, fold: bool) returns (matched: bool)
    ensures matched <==> exists k :: 0 <= k < |s| && Matches(Tokens(rest), s[k..], fold)
    decreases |rest|, 1
  {
    var k := 0;
    while k < |s|
      invariant k <= |s|
      invariant forall n :: 0 <= n < k ==> !Matches(Tokens(rest), s[n..], fold)
    {
      var found := Fnmatch(rest, s[k..], false, fold);
      WantedLater(rest, s[k..], fold);
      if found {
        return true;
      }
      k := k + 1;
    }
    matched := false;
  }
}
