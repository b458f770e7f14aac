/** The read-only guard: allow-list entries compiled to anchored patterns.

    A compiled entry is the sequence of its pattern's pieces, and `Accepts` is the language
    the anchored, case-insensitive pattern describes, over ASCII commands. */
module ReadOnly {
  import opened Common

  // ------------------------------------------------------------ words of a text

  /** The longest prefix without white space. */
  function Word(s: string): (w: string)
    ensures |w| <= |s| && w == s[..|w|]
    ensures forall i :: 0 <= i < |w| ==> !IsSpace(w[i])
    ensures |w| < |s| ==> IsSpace(s[|w|])
  {
    if s == [] || IsSpace(s[0]) then [] else [s[0]] + Word(s[1..])
  }

  /** `str.split` on white space. */
  function Split(s: string): seq<string>
    decreases |s|
  {
    if s == [] then []
    else if IsSpace(s[0]) then Split(s[1..])
    else [Word(s)] + Split(s[|Word(s)|..])
  }

  predicate GoodWord(w: string) { w != [] && forall i :: 0 <= i < |w| ==> !IsSpace(w[i]) }

  predicate GoodWords(ws: seq<string>) { forall i :: 0 <= i < |ws| ==> GoodWord(ws[i]) }

  lemma {:induction false} SplitGood(s: string)
    ensures GoodWords(Split(s))
    decreases |s|
  {
    if s != [] {
      if IsSpace(s[0]) { SplitGood(s[1..]); } else { SplitGood(s[|Word(s)|..]); }
    }
  }

  function Join(ws: seq<string>): string {
    if ws == [] then [] else if |ws| == 1 then ws[0] else ws[0] + [' '] + Join(ws[1..])
  }

  /** Replacing every run of white space by one space. */
  function Collapse(s: string): string
    decreases |s|
  {
    if s == [] then []
    else if IsSpace(s[0]) then [' '] + Collapse(StripLeft(s))
    else [s[0]] + Collapse(s[1..])
  }

  function Normalise(command: string): string { Strip(Collapse(command)) }

  lemma {:induction false} StripLeftSplit(s: string)
    ensures Split(StripLeft(s)) == Split(s)
    ensures StripLeft(s) == [] || !IsSpace(StripLeft(s)[0])
    ensures |StripLeft(s)| <= |s|
  {
    if s != [] && IsSpace(s[0]) { StripLeftSplit(s[1..]); }
  }

  lemma {:induction false} CollapseWord(w: string, rest: string)
    requires forall i :: 0 <= i < |w| ==> !IsSpace(w[i])
    ensures Collapse(w + rest) == w + Collapse(rest)
  {
    if w == [] {
      assert w + rest == rest;
    } else {
      CollapseWord(w[1..], rest);
      assert (w + rest)[1..] == w[1..] + rest;
    }
  }

  /** Text that starts on a word collapses to its words, and a space if more follows. */
  lemma {:induction false} CollapseShape(s: string)
    requires s == [] || !IsSpace(s[0])
    ensures Collapse(s) == Join(Split(s)) || Collapse(s) == Join(Split(s)) + [' ']
    decreases |s|
  {
    if s != [] {
      var w := Word(s);
      var rest := s[|w|..];
      CollapseWord(w, rest);
      assert s == w + rest;
      if rest != [] {
        var next := StripLeft(rest);
        StripLeftSplit(rest);
        StripLeftShorter(rest);
        CollapseShape(next);
        EmptySplit(next);
      }
    }
  }

  lemma StripLeftShorter(s: string)
    requires s != [] && IsSpace(s[0])
    ensures |StripLeft(s)| < |s|
  {
    StripLeftSplit(s[1..]);
  }

  lemma EmptySplit(s: string)
    requires s == [] || !IsSpace(s[0])
    ensures Split(s) == [] <==> s == []
  {
  }

  lemma {:induction false} JoinEnds(ws: seq<string>)
    requires GoodWords(ws) && ws != []
    ensures Join(ws) != [] && !IsSpace(Join(ws)[0]) && !IsSpace(Join(ws)[|Join(ws)| - 1])
  {
    assert GoodWord(ws[0]);
    if |ws| > 1 { JoinEnds(ws[1..]); }
  }

  lemma StripPadding(s: string, before: string, after: string)
    requires s == [] || (!IsSpace(s[0]) && !IsSpace(s[|s| - 1]))
    requires (before == [] || before == [' ']) && (after == [] || after == [' '])
    ensures Strip(before + s + after) == s
  {
    var padded := before + s + after;
    if before == [' '] { assert padded[1..] == s + after; } else { assert padded == s + after; }
    assert StripLeft(padded) == StripLeft(s + after);
    if s == [] {
      assert s + after == after;
      if after == [' '] { assert after[1..] == []; }
    } else {
      assert StripLeft(s + after) == s + after && StripRight(s) == s;
      assert (s + after)[|s + after| - 1] == if after == [] then s[|s| - 1] else ' ';
      if after == [' '] {
        assert (s + after)[..|s + after| - 1] == s;
      } else {
        assert s + after == s;
      }
    }
  }

  /** Normalising leaves the words of a command, one space apart. */
  lemma NormaliseIsWords(command: string)
    ensures Normalise(command) == Join(Split(command))
  {
    hide Split, Strip;
    var start := StripLeft(command);
    StripLeftSplit(command);
    CollapseShape(start);
    SplitGood(command);
    var words := Join(Split(command));
    if Split(command) != [] { JoinEnds(Split(command)); }
    var after := if Collapse(start) == words then [] else [' '];
    assert Collapse(start) == words + after;
    if command != [] && IsSpace(command[0]) {
      StripPadding(words, [' '], after);
      assert Collapse(command) == [' '] + words + after;
    } else {
      StripPadding(words, [], after);
      assert [] + words + after == words + after;
    }
  }

  // -------------------------------------------------------- compiled entries

  /** A stretch of white space, a literal, one safe token, or an optional spaced word. */
  datatype Piece = Space | Chars(text: string) | Token | Optional(word: string)

  /** `[word]`: one or more characters other than `]` in brackets. */
  predicate IsOptional(token: string) {
    |token| >= 3 && token[0] == '[' && token[|token| - 1] == ']' && ']' !in token[1..|token| - 1]
  }

  predicate PlaceholderChar(c: char) { 'a' <= c <= 'z' || c == '_' }

  predicate IsPlaceholder(token: string) {
    |token| >= 3 && token[0] == '<' && token[|token| - 1] == '>' &&
    forall i :: 1 <= i < |token| - 1 ==> PlaceholderChar(token[i])
  }

  /** A placeholder is a name of small letters and underscores in angle brackets, and an
      optional word any word in square ones. */
  lemma TokenShapes(token: string)
    ensures IsPlaceholder(token) <==>
      exists name :: token == "<" + name + ">" && name != "" && forall c :: c in name ==> 'a' <= c <= 'z' || c == '_'
    ensures IsOptional(token) <==> exists word :: token == "[" + word + "]" && word != "" && ']' !in word
  {
    if IsPlaceholder(token) {
      var name := Inner(token);
      assert token == "<" + name + ">" && forall c :: c in name ==> 'a' <= c <= 'z' || c == '_';
    }
    if IsOptional(token) { assert token == "[" + Inner(token) + "]"; }
    forall name | token == "<" + name + ">" && name != "" && forall c :: c in name ==> 'a' <= c <= 'z' || c == '_'
      ensures IsPlaceholder(token)
    {
      forall i | 1 <= i < |token| - 1 ensures PlaceholderChar(token[i]) {
        assert token[i] == name[i - 1] && name[i - 1] in name;
      }
    }
    forall word | token == "[" + word + "]" && word != "" && ']' !in word ensures IsOptional(token) {
      assert Inner(token) == word;
    }
  }

  predicate SafeChar(c: char) {
    'A' <= c <= 'Z' || 'a' <= c <= 'z' || '0' <= c <= '9' || c in "_.:/@=-"
  }

  function Inner(token: string): string
    requires |token| >= 2
  {
    token[1..|token| - 1]
  }

  function PiecesOf(token: string): seq<Piece> {
    if IsOptional(token) then [Optional(Inner(token))]
    else if IsPlaceholder(token) then [Space, Token]
    else [Space, Chars(token)]
  }

  function Pieces(tokens: seq<string>): seq<Piece> {
    if tokens == [] then [] else PiecesOf(tokens[0]) + Pieces(tokens[1..])
  }

  /** The first token of an entry has no leading white space. */
  function Body(tokens: seq<string>): seq<Piece> {
    var all := Pieces(tokens);
    if all != [] && all[0] == Space then all[1..] else all
  }

  method Compile(pattern: string) returns (body: seq<Piece>)
    ensures body == Body(Split(pattern))
  {
    hide Split, Pieces, IsPlaceholder;
    var tokens := Split(pattern);
    var parts: seq<Piece> := [];
    assert tokens[0..] == tokens;
    for i := 0 to |tokens|
      invariant parts + Pieces(tokens[i..]) == Pieces(tokens)
    {
      var token := tokens[i];
      FirstPieces(tokens[i..]);
      assert tokens[i..][1..] == tokens[i + 1..];
      assert parts + (PiecesOf(token) + Pieces(tokens[i + 1..])) == parts + PiecesOf(token) + Pieces(tokens[i + 1..]);
      if IsOptional(token) {
        parts := parts + [Optional(Inner(token))];
      } else if IsPlaceholder(token) {
        parts := parts + [Space, Token];
      } else {
        parts := parts + [Space, Chars(token)];
      }
    }
    FirstPieces(tokens[|tokens|..]);
    assert parts == Pieces(tokens);
    body := if parts != [] && parts[0] == Space then parts[1..] else parts;
  }

  lemma FirstPieces(tokens: seq<string>)
    ensures Pieces(tokens) == if tokens == [] then [] else PiecesOf(tokens[0]) + Pieces(tokens[1..])
  {
  }

  predicate SameIgnoringCase(a: string, b: string) {
    |a| == |b| && forall i :: 0 <= i < |a| ==> LowerChar(a[i]) == LowerChar(b[i])
  }

  predicate Spaces(s: string) { s != [] && forall i :: 0 <= i < |s| ==> IsSpace(s[i]) }

  predicate SafeToken(s: string) { s != [] && forall i :: 0 <= i < |s| ==> SafeChar(s[i]) }

  function Weight(pieces: seq<Piece>): nat {
    if pieces == [] then 0 else (if pieces[0].Optional? then 3 else 1) + Weight(pieces[1..])
  }

  lemma SpacedWeight(word: string, rest: seq<Piece>)
    ensures Weight([Space, Chars(word)] + rest) == 2 + Weight(rest)
  {
    assert ([Space, Chars(word)] + rest)[1..] == [Chars(word)] + rest;
    assert ([Chars(word)] + rest)[1..] == rest;
  }

  /** The texts the anchored pattern matches from end to end. */
  predicate Accepts(pieces: seq<Piece>, s: string)
    decreases Weight(pieces)
  {
    if pieces == [] then s == []
    else
      var rest := pieces[1..];
      match pieces[0]
      case Space => exists k :: 1 <= k <= |s| && Spaces(s[..k]) && Accepts(rest, s[k..])
      case Token => exists k :: 1 <= k <= |s| && SafeToken(s[..k]) && Accepts(rest, s[k..])
      case Chars(text) => |text| <= |s| && SameIgnoringCase(s[..|text|], text) && Accepts(rest, s[|text|..])
      case Optional(word) =>
        SpacedWeight(word, rest);
        Accepts(rest, s) || Accepts([Space, Chars(word)] + rest, s)
  }

  // ------------------------------------------------- what an entry should mean

  /** Token by token: a literal ignoring case, a placeholder as one safe token, an
      optional word present or absent. */
  predicate TokensMatch(entry: seq<string>, command: seq<string>) {
    if entry == [] then command == []
    else if IsOptional(entry[0]) then
      || TokensMatch(entry[1..], command)
      || (command != [] && SameIgnoringCase(command[0], Inner(entry[0])) && TokensMatch(entry[1..], command[1..]))
    else if IsPlaceholder(entry[0]) then
      command != [] && SafeToken(command[0]) && TokensMatch(entry[1..], command[1..])
    else
      command != [] && SameIgnoringCase(command[0], entry[0]) && TokensMatch(entry[1..], command[1..])
  }

  /** The words of a command, each behind one space. */
  function Lead(ws: seq<string>): string {
    if ws == [] then [] else [' '] + ws[0] + Lead(ws[1..])
  }

  /** What the pieces of whole tokens accept ends or goes on with white space. */
  lemma {:induction false} StopsAtBoundary(entry: seq<string>, s: string)
    requires Accepts(Pieces(entry), s)
    ensures s == [] || IsSpace(s[0])
    decreases |entry|
  {
    if entry != [] {
      var pieces := Pieces(entry);
      if IsOptional(entry[0]) {
        assert pieces[1..] == Pieces(entry[1..]);
        if Accepts(pieces[1..], s) {
          StopsAtBoundary(entry[1..], s);
        } else {
          var optional := [Space, Chars(Inner(entry[0]))] + pieces[1..];
          var k :| 1 <= k <= |s| && Spaces(s[..k]) && Accepts(optional[1..], s[k..]);
          assert s[..k][0] == s[0];
        }
      } else {
        var k :| 1 <= k <= |s| && Spaces(s[..k]) && Accepts(pieces[1..], s[k..]);
        assert s[..k][0] == s[0];
      }
    }
  }

  /** White space in front of a command of good words is exactly one space. */
  lemma SpaceThen(rest: seq<Piece>, command: seq<string>)
    requires GoodWords(command)
    ensures Accepts([Space] + rest, Lead(command)) <==>
      command != [] && Accepts(rest, command[0] + Lead(command[1..]))
  {
    var s := Lead(command);
    assert ([Space] + rest)[1..] == rest;
    if command != [] {
      assert GoodWord(command[0]);
      assert s[1..] == command[0] + Lead(command[1..]);
      forall k | 1 < k <= |s| ensures !Spaces(s[..k]) { assert s[..k][1] == command[0][0]; }
      assert Spaces(s[..1]);
    }
  }

  /** A literal followed by whole tokens takes exactly one word. */
  lemma CharsThen(text: string, entry: seq<string>, word: string, command: seq<string>)
    requires GoodWord(text) && GoodWord(word) && GoodWords(command)
    ensures Accepts([Chars(text)] + Pieces(entry), word + Lead(command)) <==>
      SameIgnoringCase(word, text) && Accepts(Pieces(entry), Lead(command))
  {
    hide Accepts;
    var s := word + Lead(command);
    AcceptsChars(text, Pieces(entry), s);
    if |text| < |word| {
      InsideWord(word, Lead(command), |text|);
      if Accepts(Pieces(entry), s[|text|..]) { StopsAtBoundary(entry, s[|text|..]); }
    } else if |word| < |text| <= |s| {
      LeadStarts(command);
      assert s[..|text|][|word|] == ' ';
      NotLowerSpace(text[|word|]);
    }
    if |text| == |word| { assert s[..|text|] == word && s[|text|..] == Lead(command); }
  }

  lemma InsideWord(word: string, rest: string, k: nat)
    requires GoodWord(word) && k < |word|
    ensures (word + rest)[k..] != [] && !IsSpace((word + rest)[k..][0])
  {
    assert (word + rest)[k..][0] == word[k];
  }

  lemma AcceptsChars(text: string, rest: seq<Piece>, s: string)
    ensures Accepts([Chars(text)] + rest, s) <==>
      |text| <= |s| && SameIgnoringCase(s[..|text|], text) && Accepts(rest, s[|text|..])
  {
    assert ([Chars(text)] + rest)[1..] == rest;
  }

  lemma LeadStarts(command: seq<string>)
    ensures Lead(command) != [] ==> Lead(command)[0] == ' '
  {
  }

  lemma NotLowerSpace(c: char)
    requires !IsSpace(c)
    ensures LowerChar(c) != LowerChar(' ')
  {
  }

  /** A placeholder followed by whole tokens takes exactly one word. */
  lemma TokenThen(entry: seq<string>, word: string, command: seq<string>)
    requires GoodWord(word) && GoodWords(command)
    ensures Accepts([Token] + Pieces(entry), word + Lead(command)) <==>
      SafeToken(word) && Accepts(Pieces(entry), Lead(command))
  {
    hide Accepts;
    var s := word + Lead(command);
    AcceptsToken(Pieces(entry), s);
    assert s[..|word|] == word && s[|word|..] == Lead(command);
    forall k | 1 <= k <= |s| && k != |word| ensures !SafeToken(s[..k]) || !Accepts(Pieces(entry), s[k..]) {
      if k < |word| {
        InsideWord(word, Lead(command), k);
        if Accepts(Pieces(entry), s[k..]) { StopsAtBoundary(entry, s[k..]); }
      } else {
        LeadStarts(command);
        assert s[..k][|word|] == ' ';
      }
    }
  }

  lemma AcceptsToken(rest: seq<Piece>, s: string)
    ensures Accepts([Token] + rest, s) <==> exists k :: 1 <= k <= |s| && SafeToken(s[..k]) && Accepts(rest, s[k..])
  {
    assert ([Token] + rest)[1..] == rest;
  }

  lemma AcceptsOptional(word: string, rest: seq<Piece>, s: string)
    ensures Accepts([Optional(word)] + rest, s) <==> Accepts(rest, s) || Accepts([Space, Chars(word)] + rest, s)
  {
    assert ([Optional(word)] + rest)[1..] == rest;
  }

  lemma InnerIsGood(token: string)
    requires GoodWord(token) && IsOptional(token)
    ensures GoodWord(Inner(token))
  {
  }

  /** The pieces of an entry accept the spaced words of a command exactly when the tokens
      match. */
  lemma {:induction false} PiecesExact(entry: seq<string>, command: seq<string>)
    requires GoodWords(entry) && GoodWords(command)
    ensures Accepts(Pieces(entry), Lead(command)) <==> TokensMatch(entry, command)
    decreases |entry|
  {
    hide Accepts, IsOptional, IsPlaceholder;
    if entry == [] {
      NoPieces(Lead(command));
    } else {
      var token, later := entry[0], entry[1..];
      assert GoodWord(token);
      PiecesExact(later, command);
      if command != [] {
        assert GoodWord(command[0]);
        PiecesExact(later, command[1..]);
      }
      if IsOptional(token) {
        OptionalIsLong(token);
        InnerIsGood(token);
        AcceptsOptional(Inner(token), Pieces(later), Lead(command));
        SpacedChars(Inner(token), later, command);
      } else if IsPlaceholder(token) {
        SpaceThen([Token] + Pieces(later), command);
        assert [Space, Token] + Pieces(later) == [Space] + ([Token] + Pieces(later));
        if command != [] { TokenThen(later, command[0], command[1..]); }
      } else {
        SpacedChars(token, later, command);
      }
    }
  }

  lemma OptionalIsLong(token: string)
    requires IsOptional(token)
    ensures |token| >= 3
  {
  }

  lemma NoPieces(s: string)
    ensures Accepts([], s) <==> s == []
  {
  }

  lemma SpacedChars(text: string, entry: seq<string>, command: seq<string>)
    requires GoodWord(text) && GoodWords(command)
    ensures Accepts([Space, Chars(text)] + Pieces(entry), Lead(command)) <==>
      command != [] && SameIgnoringCase(command[0], text) && Accepts(Pieces(entry), Lead(command[1..]))
  {
    hide Accepts;
    SpaceThen([Chars(text)] + Pieces(entry), command);
    assert [Space, Chars(text)] + Pieces(entry) == [Space] + ([Chars(text)] + Pieces(entry));
    if command != [] {
      assert GoodWord(command[0]);
      CharsThen(text, entry, command[0], command[1..]);
    }
  }

  lemma {:induction false} JoinIsLead(ws: seq<string>)
    ensures ws != [] ==> [' '] + Join(ws) == Lead(ws)
  {
    if |ws| > 1 {
      JoinIsLead(ws[1..]);
      assert [' '] + Join(ws) == [' '] + ws[0] + ([' '] + Join(ws[1..]));
    } else if |ws| == 1 {
      assert Lead(ws[1..]) == [];
    }
  }

  /** Compilation preserves meaning: for an entry whose first token is not optional, the
      anchored pattern matches a normalised command exactly when the tokens match. */
  lemma CompileExact(pattern: string, command: string)
    requires Split(pattern) != [] && !IsOptional(Split(pattern)[0])
    ensures Accepts(Body(Split(pattern)), Normalise(command)) <==> TokensMatch(Split(pattern), Split(command))
  {
    hide Accepts, IsOptional, IsPlaceholder, Split, Normalise;
    var entry, words := Split(pattern), Split(command);
    SplitGood(pattern);
    SplitGood(command);
    NormaliseIsWords(command);
    PiecesExact(entry, words);
    var body := Body(entry);
    assert Pieces(entry) == [Space] + body;
    SpaceThen(body, words);
    if words == [] {
      NothingToMatch(entry);
    } else {
      JoinIsLead(words);
      assert Lead(words)[1..] == Join(words);
      assert Lead(words)[1..] == words[0] + Lead(words[1..]);
    }
  }

  lemma NothingToMatch(entry: seq<string>)
    requires GoodWords(entry) && entry != [] && !IsOptional(entry[0])
    ensures !Accepts(Body(entry), Join([])) && !TokensMatch(entry, [])
  {
    assert GoodWord(entry[0]);
    var body := Body(entry);
    assert body[0] == if IsPlaceholder(entry[0]) then Token else Chars(entry[0]);
  }

  /** An entry that starts with an optional token matches no command at all: its pattern
      then begins with white space, which no normalised command does. */
  lemma OptionalFirstMatchesNothing(pattern: string, command: string)
    requires Split(pattern) != [] && IsOptional(Split(pattern)[0]) && Normalise(command) != []
    ensures !Accepts(Body(Split(pattern)), Normalise(command))
  {
    hide Accepts, Split, Normalise;
    var entry, words := Split(pattern), Split(command);
    SplitGood(command);
    NormaliseIsWords(command);
    JoinEnds(words);
    assert Body(entry) == Pieces(entry);
    if Accepts(Pieces(entry), Normalise(command)) { StopsAtBoundary(entry, Normalise(command)); }
  }

  /** A command that an entry means to permit: every literal as it is, every placeholder
      filled, every optional word present. */
  function Spoken(entry: seq<string>): seq<string> {
    if entry == [] then []
    else [if IsOptional(entry[0]) then Inner(entry[0]) else if IsPlaceholder(entry[0]) then
        "x" else entry[0]] + Spoken(entry[1..])
  }

  lemma {:induction false} SpokenMatches(entry: seq<string>)
    requires GoodWords(entry)
    ensures GoodWords(Spoken(entry)) && TokensMatch(entry, Spoken(entry)) && |Spoken(entry)| == |entry|
  {
    if entry != [] {
      assert GoodWord(entry[0]) && GoodWord("x") && SafeToken("x");
      SpokenMatches(entry[1..]);
      assert Spoken(entry)[1..] == Spoken(entry[1..]);
      if IsOptional(entry[0]) { InnerIsGood(entry[0]); }
    }
  }

  lemma {:induction false} WordOf(w: string, rest: string)
    requires (forall i :: 0 <= i < |w| ==> !IsSpace(w[i])) && (rest != [] ==> IsSpace(rest[0]))
    ensures Word(w + rest) == w
  {
    if w == [] {
      assert w + rest == rest;
    } else {
      WordOf(w[1..], rest);
      assert (w + rest)[1..] == w[1..] + rest;
    }
  }

  lemma {:induction false} SplitJoin(ws: seq<string>)
    requires GoodWords(ws)
    ensures Split(Join(ws)) == ws
  {
    hide Join, Word;
    if ws == [] {
      JoinParts(ws);
    } else {
      assert GoodWord(ws[0]);
      var rest := if |ws| == 1 then [] else [' '] + Join(ws[1..]);
      JoinParts(ws);
      WordOf(ws[0], rest);
      SplitJoin(ws[1..]);
      assert Join(ws)[|ws[0]|..] == rest;
      if rest != [] { assert rest[1..] == Join(ws[1..]); }
      assert Split(rest) == ws[1..];
    }
  }

  lemma JoinParts(ws: seq<string>)
    ensures ws == [] ==> Join(ws) == []
    ensures ws != [] ==> Join(ws) == ws[0] + if |ws| == 1 then [] else [' '] + Join(ws[1..])
  {
  }

  /** Compilation preserves the meaning of an entry on every command that is not blank
      exactly when its first token is not optional; an entry that starts with an optional
      token always means to permit some command, which its pattern then refuses. */
  lemma MeaningPreservedExactly(pattern: string)
    ensures (forall command :: Normalise(command) != [] ==>
              (Accepts(Body(Split(pattern)), Normalise(command)) <==> TokensMatch(Split(pattern), Split(command))))
       <==> (Split(pattern) == [] || !IsOptional(Split(pattern)[0]))
  {
    hide Accepts, Normalise, Split, IsOptional, TokensMatch, Spoken, GoodWords, Join, Body;
    var entry := Split(pattern);
    SplitGood(pattern);
    if entry != [] && IsOptional(entry[0]) {
      SpokenMatches(entry);
      SplitJoin(Spoken(entry));
      NormaliseIsWords(Join(Spoken(entry)));
      SomethingSpoken(Spoken(entry));
      OptionalFirstMatchesNothing(pattern, Join(Spoken(entry)));
    } else {
      forall command | Normalise(command) != []
        ensures Accepts(Body(Split(pattern)), Normalise(command)) <==> TokensMatch(Split(pattern), Split(command))
      {
        if entry == [] { NothingListed(command); } else { CompileExact(pattern, command); }
      }
    }
  }

  lemma SomethingSpoken(ws: seq<string>)
    requires GoodWords(ws) && ws != []
    ensures Join(ws) != []
  {
    assert GoodWord(ws[0]);
  }

  lemma NothingListed(command: string)
    requires Normalise(command) != []
    ensures !Accepts(Body([]), Normalise(command)) && !TokensMatch([], Split(command))
  {
    hide Normalise, Split;
    NormaliseIsWords(command);
    NoPieces(Normalise(command));
  }

  // -------------------------------------------------------------------- guard

  datatype CommandRule = CommandRule(pattern: string, sessionOnly: bool)

  datatype PlatformPolicy = PlatformPolicy(commands: seq<CommandRule>, forbidPipe: bool)

  const COMMAND_SEPARATORS: seq<string> := [";", "&&", "||", "\n", "\r", "`", "$(", "&", ">", "<"]

  predicate At(part: string, s: string, i: nat)
    requires i <= |s|
  {
    part <= s[i..]
  }

  predicate Occurs(part: string, s: string) { exists i :: 0 <= i <= |s| && At(part, s, i) }

  predicate HasSeparator(command: string) {
    exists i :: 0 <= i < |COMMAND_SEPARATORS| && Occurs(COMMAND_SEPARATORS[i], command)
  }

  datatype Violation = Separator | Pipe | Empty | NotListed | WriteVerb

  predicate Permits(r: CommandRule, candidate: string) { Accepts(Body(Split(r.pattern)), candidate) }

  /** The candidate is a normalised command, so it ends in no line feed, which the source's
      end-of-text anchor would let pass. */
  method Match(policy: PlatformPolicy, candidate: string) returns (rule: Option<nat>)
    ensures rule.None? ==> forall i :: 0 <= i < |policy.commands| ==> !Permits(policy.commands[i], candidate)
    ensures rule.Some? ==> rule.value < |policy.commands| && Permits(policy.commands[rule.value], candidate)
    ensures rule.Some? ==> forall i :: 0 <= i < rule.value ==> !Permits(policy.commands[i], candidate)
  {
    hide Accepts;
    for k := 0 to |policy.commands|
      invariant forall i :: 0 <= i < k ==> !Permits(policy.commands[i], candidate)
    {
      var pattern := Compile(policy.commands[k].pattern);
      if Accepts(pattern, candidate) { return Some(k); }
    }
    return None;
  }

  /** Passed the checks on the raw text, and not blank. */
  predicate Sendable(policy: PlatformPolicy, command: string) {
    !HasSeparator(command) && !(policy.forbidPipe && Occurs("|", command)) && Normalise(command) != []
  }

  predicate Unlisted(policy: PlatformPolicy, candidate: string) {
    forall i :: 0 <= i < |policy.commands| ==> !Permits(policy.commands[i], candidate)
  }

  /** The first listed rule that permits the command. */
  predicate Decides(policy: PlatformPolicy, k: nat, candidate: string) {
    && k < |policy.commands| && Permits(policy.commands[k], candidate)
    && forall i :: 0 <= i < k ==> !Permits(policy.commands[i], candidate)
  }

  predicate Vetoed(policy: PlatformPolicy, denied: string -> bool, k: nat, candidate: string) {
    k < |policy.commands| && !policy.commands[k].sessionOnly && denied(candidate)
  }

  /** `denied` is the global write-verb pattern. The separator check sees the raw text,
      the rest sees it normalised, and the first listed rule decides. */
  method CheckCommand(policy: PlatformPolicy, denied: string -> bool, command: string) returns (r: Result<nat,
      Violation>)
    ensures r == Err(Separator) <==> HasSeparator(command)
    ensures r == Err(Pipe) <==> !HasSeparator(command) && policy.forbidPipe && Occurs("|", command)
    ensures r == Err(NotListed) <==> Sendable(policy, command) && Unlisted(policy, Normalise(command))
    ensures forall k: nat :: r == Ok(k) <==>
      Sendable(policy, command) && Decides(policy, k, Normalise(command)) &&
          !Vetoed(policy, denied, k, Normalise(command))
    ensures r == Err(WriteVerb) <==> exists k: nat ::
      Sendable(policy, command) && Decides(policy, k, Normalise(command)) &&
          Vetoed(policy, denied, k, Normalise(command))
  {
    hide Permits, Normalise;
    for i := 0 to |COMMAND_SEPARATORS|
      invariant forall j :: 0 <= j < i ==> !Occurs(COMMAND_SEPARATORS[j], command)
    {
      if Occurs(COMMAND_SEPARATORS[i], command) { return Err(Separator); }
    }
    if policy.forbidPipe && Occurs("|", command) { return Err(Pipe); }
    var candidate := Normalise(command);
    if candidate == [] { return Err(Empty); }
    var rule := Match(policy, candidate);
    if rule.None? { return Err(NotListed); }
    assert forall k: nat :: Decides(policy, k, candidate) ==> k == rule.value;
    assert Decides(policy, rule.value, candidate);
    if !policy.commands[rule.value].sessionOnly && denied(candidate) {
      assert Vetoed(policy, denied, rule.value, candidate);
      return Err(WriteVerb);
    }
    return Ok(rule.value);
  }

  predicate FirstIsOptional(r: CommandRule) { Split(r.pattern) != [] && IsOptional(Split(r.pattern)[0]) }

  /** Whatever rule permits a command, the command's words are that entry's tokens one by
      one, and no more of them: nothing rides behind a permitted prefix. */
  lemma PermittedMeansTokens(r: CommandRule, command: string)
    requires Permits(r, Normalise(command)) && Normalise(command) != []
    ensures !FirstIsOptional(r) && TokensMatch(Split(r.pattern), Split(command))
    ensures |Split(command)| <= |Split(r.pattern)|
  {
    hide Accepts, Normalise, Split, IsOptional, TokensMatch;
    if Split(r.pattern) == [] {
      NoPieces(Normalise(command));
    } else if IsOptional(Split(r.pattern)[0]) {
      OptionalFirstMatchesNothing(r.pattern, command);
    } else {
      CompileExact(r.pattern, command);
      MatchedCount(Split(r.pattern), Split(command));
    }
  }

  lemma {:induction false} MatchedCount(entry: seq<string>, command: seq<string>)
    requires TokensMatch(entry, command)
    ensures |command| <= |entry|
  {
    if entry != [] {
      if IsOptional(entry[0]) && TokensMatch(entry[1..], command) {
        MatchedCount(entry[1..], command);
      } else {
        MatchedCount(entry[1..], command[1..]);
      }
    }
  }

  lemma OccursMeans(part: string, s: string)
    ensures Occurs(part, s) <==> exists before, after :: s == before + part + after
  {
    forall i | 0 <= i <= |s| && At(part, s, i) ensures exists before, after :: s == before + part + after {
      assert s == s[..i] + part + s[i..][|part|..];
    }
    forall before, after | s == before + part + after ensures Occurs(part, s) {
      assert s[|before|..] == part + after;
      assert At(part, s, |before|);
    }
  }

  /** A command that passes the first check holds none of the characters with which a shell
      or a device chains, redirects or substitutes, and no `||` or `$(`. */
  lemma NothingIsChained(command: string)
    requires !HasSeparator(command)
    ensures forall c :: c in ";&`<>\n\r" ==> c !in command
    ensures forall before, after :: command != before + "||" + after && command != before + "$(" + after
  {
    forall i | 0 <= i < |COMMAND_SEPARATORS| ensures !Occurs(COMMAND_SEPARATORS[i], command) { }
    forall c | c in ";&`<>\n\r" ensures c !in command {
      assert [c] in COMMAND_SEPARATORS by { SeparatorsListed(c); }
      OneCharacterOccurs(c, command);
    }
    assert COMMAND_SEPARATORS[2] == "||" && COMMAND_SEPARATORS[6] == "$(";
    OccursMeans("||", command);
    OccursMeans("$(", command);
  }

  lemma SeparatorsListed(c: char)
    requires c in ";&`<>\n\r"
    ensures [c] in COMMAND_SEPARATORS
  {
    var s := COMMAND_SEPARATORS;
    assert s[0] == ";" && s[3] == "\n" && s[4] == "\r" && s[5] == "`" && s[7] == "&" && s[8] == ">" && s[9] == "<";
  }

  lemma OneCharacterOccurs(c: char, s: string)
    ensures c in s ==> Occurs([c], s)
  {
    if c in s {
      var i :| 0 <= i < |s| && s[i] == c;
      assert At([c], s, i);
    }
  }

  /** And a placeholder never stands for white space, a pipe or a quote. */
  lemma SafeTokensAreWords(token: string)
    requires SafeToken(token)
    ensures token != [] && forall c :: c in token ==> !IsSpace(c) && c !in "|;&`<>$()\"'\\*?[]{}!~#"
  {
  }
}
