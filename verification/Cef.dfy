/** Rendering events in ArcSight Common Event Format, and reading them back. */
module Cef {
  import opened Common

  const MAX_VALUE := 1000

  /** `str.replace` of one character by a text. */
  function Replace(s: string, c: char, text: string): string {
    if s == [] then [] else (if s[0] == c then text else [s[0]]) + Replace(s[1..], c, text)
  }

  /** `str.replace` of carriage return, line feed by one space. */
  function ReplaceCrLf(s: string): string {
    if |s| >= 2 && s[0] == '\r' && s[1] == '\n' then " " + ReplaceCrLf(s[2..])
    else if s == [] then []
    else [s[0]] + ReplaceCrLf(s[1..])
  }

  /** Backslash first, then the character with a meaning of its own. */
  function Escape(s: string, special: char): string {
    Replace(Replace(s, '\\', "\\\\"), special, ['\\', special])
  }

  function EscapeHeader(value: string): string { Escape(value, '|') }

  function Fold(s: string): string { Replace(Replace(ReplaceCrLf(s), '\n', " "), '\r', " ") }

  function EscapeValue(value: string): string {
    var folded := Fold(Escape(value, '='));
    if |folded| > MAX_VALUE then folded[..MAX_VALUE - 1] + ['\U{2026}'] else folded
  }

  // ---------------------------------------------------------- what escaping is

  function Mark(c: char, special: char): string {
    if c == '\\' || c == special then ['\\', c] else [c]
  }

  /** The two replacements amount to marking each character once. */
  lemma {:induction false} EscapeMarks(s: string, special: char)
    requires special != '\\'
    ensures Escape([], special) == []
    ensures s != [] ==> Escape(s, special) == Mark(s[0], special) + Escape(s[1..], special)
  {
    if s != [] {
      var head := if s[0] == '\\' then "\\\\" else [s[0]];
      ReplaceConcat(head, Replace(s[1..], '\\', "\\\\"), special, ['\\', special]);
      assert Replace("\\\\", special, ['\\', special]) == "\\\\" by {
        assert "\\\\"[1..] == "\\";
        assert "\\"[1..] == "";
      }
      assert [s[0]][1..] == [];
    }
  }

  lemma {:induction false} ReplaceConcat(a: string, b: string, c: char, text: string)
    ensures Replace(a + b, c, text) == Replace(a, c, text) + Replace(b, c, text)
  {
    if a == [] {
      assert a + b == b;
    } else {
      ReplaceConcat(a[1..], b, c, text);
      assert (a + b)[1..] == a[1..] + b && (a + b)[0] == a[0];
      var head := if a[0] == c then text else [a[0]];
      assert head + (Replace(a[1..], c, text) + Replace(b, c, text)) ==
          (head + Replace(a[1..], c, text)) + Replace(b, c, text);
    }
  }

  function Unescape(s: string): string {
    if s == [] then []
    else if s[0] == '\\' && |s| >= 2 then [s[1]] + Unescape(s[2..])
    else [s[0]] + Unescape(s[1..])
  }

  /** Unescaping undoes escaping, for headers and values alike. */
  lemma {:induction false} UnescapeEscape(s: string, special: char)
    requires special != '\\'
    ensures Unescape(Escape(s, special)) == s
  {
    EscapeMarks(s, special);
    if s != [] {
      UnescapeEscape(s[1..], special);
      var e := Escape(s, special);
      assert e[|Mark(s[0], special)|..] == Escape(s[1..], special);
    }
  }

  // ------------------------------------------------------------ scanning text

  /** No unescaped `stop`, and no backslash left without the character it escapes. */
  predicate Quiet(s: string, stop: char) {
    if s == [] then true
    else if s[0] == '\\' then |s| >= 2 && Quiet(s[2..], stop)
    else s[0] != stop && Quiet(s[1..], stop)
  }

  lemma {:induction false} EscapedIsQuiet(s: string, special: char)
    requires special != '\\'
    ensures Quiet(Escape(s, special), special)
  {
    EscapeMarks(s, special);
    if s != [] {
      EscapedIsQuiet(s[1..], special);
      var e := Escape(s, special);
      assert e[|Mark(s[0], special)|..] == Escape(s[1..], special);
    }
  }

  lemma {:induction false} QuietConcat(a: string, b: string, stop: char)
    requires Quiet(a, stop) && Quiet(b, stop)
    ensures Quiet(a + b, stop)
    decreases |a|
  {
    if a == [] {
      assert a + b == b;
    } else if a[0] == '\\' {
      QuietConcat(a[2..], b, stop);
      assert (a + b)[2..] == a[2..] + b;
    } else {
      QuietConcat(a[1..], b, stop);
      assert (a + b)[1..] == a[1..] + b;
    }
  }

  /** Cutting quiet text and marking the cut leaves it quiet: a backslash cut off from its
      partner takes the mark instead. */
  lemma {:induction false} CutIsQuiet(s: string, n: nat, mark: char, stop: char)
    requires Quiet(s, stop) && n <= |s| && mark != stop && mark != '\\'
    ensures Quiet(s[..n] + [mark], stop)
    decreases n
  {
    var cut := s[..n] + [mark];
    if n == 0 {
      assert cut == [mark] && cut[1..] == [];
    } else if s[0] == '\\' {
      if n == 1 {
        assert cut == ['\\', mark] && cut[2..] == [];
      } else {
        CutIsQuiet(s[2..], n - 2, mark, stop);
        assert cut[2..] == s[2..][..n - 2] + [mark];
      }
    } else {
      CutIsQuiet(s[1..], n - 1, mark, stop);
      assert cut[1..] == s[1..][..n - 1] + [mark];
    }
  }

  /** Text up to the first unescaped `stop`, and what follows it. */
  function ReadUntil(s: string, stop: char): Option<(string, string)> {
    if s == [] then None
    else if s[0] == stop then Some(([], s[1..]))
    else
      var step := if s[0] == '\\' && |s| >= 2 then 2 else 1;
      match ReadUntil(s[step..], stop)
      case None => None
      case Some(halves) => Some((s[..step] + halves.0, halves.1))
  }

  lemma {:induction false} ReadQuiet(a: string, rest: string, stop: char)
    requires Quiet(a, stop) && stop != '\\'
    ensures ReadUntil(a + [stop] + rest, stop) == Some((a, rest))
    decreases |a|
  {
    var s := a + [stop] + rest;
    if a == [] {
      assert s[1..] == rest;
    } else {
      var step := if a[0] == '\\' then 2 else 1;
      ReadQuiet(a[step..], rest, stop);
      assert s[step..] == a[step..] + [stop] + rest;
      assert s[..step] + a[step..] == a;
    }
  }

  // ------------------------------------------------------------------ header

  /** Every field is followed by a pipe. */
  function JoinHeader(fields: seq<string>): string {
    if fields == [] then [] else EscapeHeader(fields[0]) + ['|'] + JoinHeader(fields[1..])
  }

  /** Splitting at the first `n` unescaped pipes and unescaping. */
  function ReadHeader(s: string, n: nat): Option<(seq<string>, string)>
    decreases n
  {
    if n == 0 then Some(([], s))
    else match ReadUntil(s, '|')
      case None => None
      case Some(first) =>
        match ReadHeader(first.1, n - 1)
        case None => None
        case Some(others) => Some(([Unescape(first.0)] + others.0, others.1))
  }

  /** Whatever the fields hold, reading the header back gives the same fields. */
  lemma {:induction false} HeaderRoundTrip(fields: seq<string>, body: string)
    ensures ReadHeader(JoinHeader(fields) + body, |fields|) == Some((fields, body))
  {
    hide ReadUntil, Quiet, Unescape, Escape;
    if fields == [] {
      assert JoinHeader(fields) + body == body;
    } else {
      HeaderRoundTrip(fields[1..], body);
      EscapedIsQuiet(fields[0], '|');
      UnescapeEscape(fields[0], '|');
      ReadQuiet(EscapeHeader(fields[0]), JoinHeader(fields[1..]) + body, '|');
      assert [fields[0]] + fields[1..] == fields;
      assert JoinHeader(fields) + body == EscapeHeader(fields[0]) + ['|'] + (JoinHeader(fields[1..]) + body);
    }
  }

  // -------------------------------------------------------------- extensions

  type Extension = (string, string)

  predicate Plain(c: char) { c != ' ' && c != '=' && c != '\\' }

  predicate GoodKey(key: string) { key != [] && forall i :: 0 <= i < |key| ==> Plain(key[i]) }

  predicate GoodKeys(extensions: seq<Extension>) {
    forall i :: 0 <= i < |extensions| ==> GoodKey(extensions[i].0)
  }

  function JoinExtensions(extensions: seq<Extension>): string {
    if extensions == [] then []
    else if |extensions| == 1 then extensions[0].0 + ['='] + EscapeValue(extensions[0].1)
    else extensions[0].0 + ['='] + EscapeValue(extensions[0].1) + [' '] + JoinExtensions(extensions[1..])
  }

  /** The text between unescaped equals signs. */
  function Segments(s: string): (segments: seq<string>)
    ensures segments != []
  {
    if s == [] then [[]]
    else if s[0] == '=' then [[]] + Segments(s[1..])
    else
      var step := if s[0] == '\\' && |s| >= 2 then 2 else 1;
      Prefixed(s[..step], Segments(s[step..]))
  }

  function Prefixed(text: string, segments: seq<string>): (r: seq<string>)
    requires segments != []
    ensures r != []
  {
    [text + segments[0]] + segments[1..]
  }

  lemma PrefixedTwice(a: string, b: string, segments: seq<string>)
    requires segments != []
    ensures Prefixed(a, Prefixed(b, segments)) == Prefixed(a + b, segments)
    ensures Prefixed([], segments) == segments
  {
    assert a + (b + segments[0]) == (a + b) + segments[0];
    assert [] + segments[0] == segments[0];
  }

  function AfterLastSpace(s: string): string {
    if s == [] || s[|s| - 1] == ' ' then [] else AfterLastSpace(s[..|s| - 1]) + [s[|s| - 1]]
  }

  function BeforeLastSpace(s: string): string {
    if s == [] then [] else if s[|s| - 1] == ' ' then s[..|s| - 1] else BeforeLastSpace(s[..|s| - 1])
  }

  /** A key is the last token before an unescaped equals sign; its value runs to the space
      before the next key. */
  function ReadSegments(segments: seq<string>): seq<Extension> {
    if |segments| < 2 then []
    else
      var raw := if |segments| == 2 then segments[1] else BeforeLastSpace(segments[1]);
      [(AfterLastSpace(segments[0]), Unescape(raw))] + ReadSegments(segments[1..])
  }

  function ReadExtensions(body: string): seq<Extension> { ReadSegments(Segments(body)) }

  lemma {:induction false} SegmentsOfQuiet(a: string, rest: string)
    requires Quiet(a, '=')
    ensures Segments(a + rest) == Prefixed(a, Segments(rest))
    decreases |a|
  {
    hide Prefixed;
    PrefixedTwice(a, a, Segments(rest));
    if a == [] {
      assert a + rest == rest;
    } else {
      var step := if a[0] == '\\' then 2 else 1;
      SegmentsOfQuiet(a[step..], rest);
      PrefixedTwice(a[..step], a[step..], Segments(rest));
      assert (a + rest)[step..] == a[step..] + rest && (a + rest)[..step] == a[..step];
      assert a[..step] + a[step..] == a;
    }
  }

  lemma {:induction false} KeyIsQuiet(key: string)
    requires forall i :: 0 <= i < |key| ==> Plain(key[i])
    ensures Quiet(key, '=')
  {
    if key != [] { KeyIsQuiet(key[1..]); }
  }

  lemma {:induction false} LastToken(a: string, key: string)
    requires forall i :: 0 <= i < |key| ==> Plain(key[i])
    ensures AfterLastSpace(a + [' '] + key) == key && BeforeLastSpace(a + [' '] + key) == a
    decreases |key|
  {
    var s := a + [' '] + key;
    if key == [] {
      assert s[..|s| - 1] == a;
    } else {
      LastToken(a, key[..|key| - 1]);
      assert s[..|s| - 1] == a + [' '] + key[..|key| - 1];
    }
  }

  lemma {:induction false} OnlyToken(key: string)
    requires forall i :: 0 <= i < |key| ==> Plain(key[i])
    ensures AfterLastSpace(key) == key
  {
    if key != [] { OnlyToken(key[..|key| - 1]); }
  }

  /** The segments a well-keyed body splits into. */
  function Expected(extensions: seq<Extension>): (r: seq<string>)
    requires extensions != []
    ensures r != []
  {
    var value := EscapeValue(extensions[0].1);
    [extensions[0].0] +
      if |extensions| == 1 then [value] else Prefixed(value + [' '], Expected(extensions[1..]))
  }

  lemma ValueIsQuiet(value: string)
    ensures Quiet(EscapeValue(value), '=')
  {
    EscapedIsQuiet(value, '=');
    FoldCommutes(value);
    EscapedIsQuiet(Fold(value), '=');
    var folded := Fold(Escape(value, '='));
    if |folded| > MAX_VALUE { CutIsQuiet(folded, MAX_VALUE - 1, '\U{2026}', '='); }
  }

  lemma {:induction false} BodySegments(extensions: seq<Extension>)
    requires extensions != [] && GoodKeys(extensions)
    ensures Segments(JoinExtensions(extensions)) == Expected(extensions)
  {
    hide EscapeValue, Segments, Prefixed, Quiet;
    var (key, value) := extensions[0];
    var text := EscapeValue(value);
    assert GoodKey(key);
    KeyIsQuiet(key);
    ValueIsQuiet(value);
    if |extensions| == 1 {
      LastSegment(text);
      KeyThenValue(key, text);
    } else {
      var rest := JoinExtensions(extensions[1..]);
      BodySegments(extensions[1..]);
      SpaceIsQuiet();
      QuietConcat(text, [' '], '=');
      SegmentsOfQuiet(text + [' '], rest);
      KeyThenValue(key, text + [' '] + rest);
      assert JoinExtensions(extensions) == key + ['='] + (text + [' '] + rest);
    }
  }

  lemma SpaceIsQuiet()
    ensures Quiet([' '], '=')
  {
    assert [' '][1..] == [];
  }

  lemma LastSegment(text: string)
    requires Quiet(text, '=')
    ensures Segments(text) == [text]
  {
    SegmentsOfQuiet(text, []);
    assert text + [] == text;
  }

  lemma KeyThenValue(key: string, rest: string)
    requires Quiet(key, '=')
    ensures Segments(key + ['='] + rest) == [key] + Segments(rest)
  {
    SegmentsOfQuiet(key, ['='] + rest);
    assert (['='] + rest)[1..] == rest;
    assert key + ['='] + rest == key + (['='] + rest);
    assert Segments(['='] + rest) == [[]] + Segments(rest);
    assert key + [] == key;
  }

  /** What a reader gets back for each extension. */
  function ReadBack(value: string): string { Unescape(EscapeValue(value)) }

  function AllReadBack(extensions: seq<Extension>): seq<Extension> {
    seq(|extensions|, i requires 0 <= i < |extensions| => (extensions[i].0, ReadBack(extensions[i].1)))
  }

  /** Reading a body back recovers every key, in order, and each value as read back. */
  lemma {:induction false} ExtensionsRoundTrip(extensions: seq<Extension>)
    requires extensions != [] && GoodKeys(extensions)
    ensures ReadExtensions(JoinExtensions(extensions)) == AllReadBack(extensions)
  {
    hide EscapeValue, Segments, AfterLastSpace, ReadSegments;
    BodySegments(extensions);
    assert GoodKey(extensions[0].0);
    OnlyToken(extensions[0].0);
    assert Expected(extensions) == [extensions[0].0] + Expected(extensions)[1..];
    ReadExpected(extensions, extensions[0].0);
  }

  lemma {:induction false} ReadExpected(extensions: seq<Extension>, first: string)
    requires extensions != [] && GoodKeys(extensions) && AfterLastSpace(first) == extensions[0].0
    ensures ReadSegments([first] + Expected(extensions)[1..]) == AllReadBack(extensions)
    decreases |extensions|
  {
    hide EscapeValue, AfterLastSpace, BeforeLastSpace, Unescape, ReadBack;
    var segments := [first] + Expected(extensions)[1..];
    var text := EscapeValue(extensions[0].1);
    if |extensions| > 1 {
      var rest := extensions[1..];
      assert GoodKey(rest[0].0);
      LastToken(text, rest[0].0);
      ReadExpected(rest, text + [' '] + rest[0].0);
      assert segments[1..] == [text + [' '] + rest[0].0] + Expected(rest)[1..];
      assert AllReadBack(extensions) == [(extensions[0].0, ReadBack(extensions[0].1))] + AllReadBack(rest);
      SegmentsStep(segments, text);
    } else {
      assert segments == [first, text];
      SegmentsStep(segments, text);
      assert ReadSegments(segments[1..]) == [];
    }
    ReadBackMeans(extensions[0].1);
  }

  lemma SegmentsStep(segments: seq<string>, raw: string)
    requires |segments| >= 2 && raw == if |segments| == 2 then segments[1] else BeforeLastSpace(segments[1])
    ensures ReadSegments(segments) == [(AfterLastSpace(segments[0]), Unescape(raw))] + ReadSegments(segments[1..])
  {
  }

  lemma ReadBackMeans(value: string)
    ensures ReadBack(value) == Unescape(EscapeValue(value))
  {
  }

  // ------------------------------------------------------------------- values

  lemma {:induction false} FoldCrLfCommutes(s: string)
    ensures ReplaceCrLf(Escape(s, '=')) == Escape(ReplaceCrLf(s), '=')
    decreases |s|
  {
    hide Escape;
    EscapeMarks(s, '=');
    EscapeMarks(ReplaceCrLf(s), '=');
    var e := Escape(s, '=');
    if s != [] {
      var tail := Escape(s[1..], '=');
      EscapeMarks(s[1..], '=');
      if |s| >= 2 && s[0] == '\r' && s[1] == '\n' {
        FoldCrLfCommutes(s[2..]);
        assert s[1..][1..] == s[2..];
        assert e[2..] == Escape(s[2..], '=') && e[0] == '\r' && e[1] == '\n';
        assert ReplaceCrLf(s)[1..] == ReplaceCrLf(s[2..]);
      } else {
        FoldCrLfCommutes(s[1..]);
        assert ReplaceCrLf(s)[1..] == ReplaceCrLf(s[1..]);
        PassMark(s[0], tail, s != [] && |s| >= 2 && s[1] == '\n');
      }
    }
  }

  /** Folding passes over a marked character, unless it is half of a line end. */
  lemma PassMark(c: char, tail: string, newlineNext: bool)
    requires tail != [] && tail[0] == '\n' ==> newlineNext
    requires !(c == '\r' && newlineNext)
    ensures ReplaceCrLf(Mark(c, '=') + tail) == Mark(c, '=') + ReplaceCrLf(tail)
  {
    var last := [c] + tail;
    assert last[1..] == tail;
    OneCharacter(last);
    if c == '\\' || c == '=' {
      var e := ['\\'] + last;
      assert e[1..] == last;
      OneCharacter(e);
      assert Mark(c, '=') + tail == e;
      assert ['\\', c] + ReplaceCrLf(tail) == ['\\'] + ([c] + ReplaceCrLf(tail));
    }
  }

  lemma OneCharacter(s: string)
    requires s != [] && !(|s| >= 2 && s[0] == '\r' && s[1] == '\n')
    ensures ReplaceCrLf(s) == [s[0]] + ReplaceCrLf(s[1..])
  {
  }

  lemma {:induction false} FoldOneCommutes(s: string, c: char)
    requires c == '\n' || c == '\r'
    ensures Replace(Escape(s, '='), c, " ") == Escape(Replace(s, c, " "), '=')
  {
    EscapeMarks(s, '=');
    if s != [] {
      FoldOneCommutes(s[1..], c);
      ReplaceConcat(Mark(s[0], '='), Escape(s[1..], '='), c, " ");
      var r := Replace(s, c, " ");
      EscapeMarks(r, '=');
      assert r[1..] == Replace(s[1..], c, " ");
      assert [s[0]][1..] == [];
      if s[0] == '\\' || s[0] == '=' {
        assert Mark(s[0], '=')[1..] == [s[0]];
      }
    }
  }

  /** Escaping and folding newlines do not interfere. */
  lemma FoldCommutes(s: string)
    ensures Fold(Escape(s, '=')) == Escape(Fold(s), '=')
  {
    FoldCrLfCommutes(s);
    FoldOneCommutes(ReplaceCrLf(s), '\n');
    FoldOneCommutes(Replace(ReplaceCrLf(s), '\n', " "), '\r');
  }

  /** A value that fits is read back exactly, up to newline folding. */
  lemma ValueRoundTrip(value: string)
    requires |Escape(Fold(value), '=')| <= MAX_VALUE
    ensures ReadBack(value) == Fold(value)
  {
    FoldCommutes(value);
    UnescapeEscape(Fold(value), '=');
  }

  predicate OneLine(s: string) { forall i :: 0 <= i < |s| ==> s[i] != '\r' && s[i] != '\n' }

  lemma {:induction false} ReplaceRemoves(s: string, c: char, kept: char)
    requires c != ' '
    ensures forall i :: 0 <= i < |Replace(s, c, " ")| ==> Replace(s, c, " ")[i] != c
    ensures (forall i :: 0 <= i < |s| ==> s[i] != kept) && kept != ' ' ==>
            forall i :: 0 <= i < |Replace(s, c, " ")| ==> Replace(s, c, " ")[i] != kept
  {
    if s != [] { ReplaceRemoves(s[1..], c, kept); }
  }

  lemma {:induction false} ReplaceNothing(s: string, c: char, text: string)
    requires forall i :: 0 <= i < |s| ==> s[i] != c
    ensures Replace(s, c, text) == s
  {
    if s != [] { ReplaceNothing(s[1..], c, text); }
  }

  lemma {:induction false} ReplaceNoCrLf(s: string)
    requires OneLine(s)
    ensures ReplaceCrLf(s) == s
  {
    if s != [] { ReplaceNoCrLf(s[1..]); }
  }

  /** Folded text is one line, and folding is the identity on, and only on, one line. */
  lemma FoldIsOneLine(s: string)
    ensures OneLine(Fold(s))
    ensures Fold(s) == s <==> OneLine(s)
  {
    var a := ReplaceCrLf(s);
    var b := Replace(a, '\n', " ");
    ReplaceRemoves(a, '\n', '\n');
    ReplaceRemoves(b, '\r', '\n');
    if OneLine(s) {
      ReplaceNoCrLf(s);
      ReplaceNothing(s, '\n', " ");
      ReplaceNothing(s, '\r', " ");
    }
  }

  /** No extension value, cut or not, can end a record. */
  lemma QuietValueHasNoNewline(value: string)
    ensures OneLine(EscapeValue(value))
  {
    FoldIsOneLine(Escape(value, '='));
  }

  // -------------------------------------------------------------- whole events

  datatype Severity = Critical | High | Medium | Low | Info

  function SeverityName(s: Severity): string {
    match s
    case Critical => "critical"
    case High => "high"
    case Medium => "medium"
    case Low => "low"
    case Info => "info"
  }

  function SeverityNumber(s: Severity): string {
    match s
    case Critical => "10"
    case High => "8"
    case Medium => "5"
    case Low => "3"
    case Info => "1"
  }

  /** An event after scrubbing; absent text is empty. The time is already in digits. */
  datatype Event = Event(
    signatureId: string, title: string, severity: Severity, millis: string,
    hostname: string, ip: string, message: string, objectType: string, objectId: string,
    attributes: seq<Extension>)

  /** Letters and digits as `str.isalnum` sees them: ASCII here, the rest given. */
  predicate KeyChar(wide: char -> bool, c: char) {
    'a' <= c <= 'z' || 'A' <= c <= 'Z' || '0' <= c <= '9' || c == '_' || (c > 127 as char && wide(c))
  }

  function SafeKey(wide: char -> bool, key: string): string {
    if key == [] then [] else (if KeyChar(wide, key[0]) then [key[0]] else []) + SafeKey(wide, key[1..])
  }

  lemma {:induction false} SafeKeyIsPlain(wide: char -> bool, key: string)
    ensures forall i :: 0 <= i < |SafeKey(wide, key)| ==> Plain(SafeKey(wide, key)[i])
  {
    if key != [] { SafeKeyIsPlain(wide, key[1..]); }
  }

  function HeaderFields(e: Event): seq<string> {
    ["CEF:0", "NetSecOps", "NetSecOps", "1.0", e.signatureId, e.title, SeverityNumber(e.severity)]
  }

  function AddIf(present: bool, extensions: seq<Extension>, key: string, value: string): seq<Extension> {
    if present then extensions + [(key, value)] else extensions
  }

  const FIRST_KEYS := {"rt", "cs1Label", "cs1"}

  function Fixed(e: Event): seq<Extension> {
    [("rt", e.millis), ("cs1Label", "severity"), ("cs1", SeverityName(e.severity))]
  }

  function Mapped(e: Event): seq<Extension> {
    var a := AddIf(e.hostname != "", Fixed(e), "dvchost", e.hostname);
    var b := AddIf(e.ip != "", a, "dvc", e.ip);
    var c := AddIf(e.message != "", b, "msg", e.message);
    var d := AddIf(e.objectType != "", AddIf(e.objectType != "", c, "cs2Label", "objectType"), "cs2", e.objectType);
    AddIf(e.objectId != "", d, "externalId", e.objectId)
  }

  predicate HasKey(extensions: seq<Extension>, key: string) {
    exists i :: 0 <= i < |extensions| && extensions[i].0 == key
  }

  /** Custom attributes follow, and never replace what is already there. */
  function WithAttributes(wide: char -> bool, extensions: seq<Extension>, attributes: seq<Extension>): seq<Extension> {
    if attributes == [] then extensions
    else
      var before := WithAttributes(wide, extensions, attributes[..|attributes| - 1]);
      var (key, value) := attributes[|attributes| - 1];
      var safe := SafeKey(wide, key);
      if safe != [] && !HasKey(before, safe) then before + [(safe, value)] else before
  }

  function Extensions(wide: char -> bool, e: Event): seq<Extension> { WithAttributes(wide, Mapped(e), e.attributes) }

  method FormatEvent(wide: char -> bool, e: Event) returns (record: string)
    ensures record == JoinHeader(HeaderFields(e)) + JoinExtensions(Extensions(wide, e))
  {
    hide JoinHeader, JoinExtensions, HeaderFields, Fixed, HasKey, SafeKey;
    var header := JoinHeader(HeaderFields(e));
    var extensions := Fixed(e);
    if e.hostname != "" { extensions := extensions + [("dvchost", e.hostname)]; }
    if e.ip != "" { extensions := extensions + [("dvc", e.ip)]; }
    if e.message != "" { extensions := extensions + [("msg", e.message)]; }
    if e.objectType != "" {
      extensions := extensions + [("cs2Label", "objectType")];
      extensions := extensions + [("cs2", e.objectType)];
    }
    if e.objectId != "" { extensions := extensions + [("externalId", e.objectId)]; }
    assert extensions == Mapped(e);
    for i := 0 to |e.attributes|
      invariant extensions == WithAttributes(wide, Mapped(e), e.attributes[..i])
    {
      var (key, value) := e.attributes[i];
      assert e.attributes[..i + 1][..i] == e.attributes[..i];
      var safe := SafeKey(wide, key);
      if safe != [] && !HasKey(extensions, safe) { extensions := extensions + [(safe, value)]; }
    }
    assert e.attributes[..|e.attributes|] == e.attributes;
    record := header + JoinExtensions(extensions);
  }

  predicate DistinctKeys(extensions: seq<Extension>) {
    forall i, j :: 0 <= i < j < |extensions| ==> extensions[i].0 != extensions[j].0
  }

  lemma {:induction false} AttributesKeepKeys(wide: char -> bool, extensions: seq<Extension>,
      attributes: seq<Extension>)
    requires GoodKeys(extensions) && DistinctKeys(extensions)
    ensures var all := WithAttributes(wide, extensions, attributes);
      GoodKeys(all) && DistinctKeys(all) && extensions <= all
  {
    if attributes != [] {
      AttributesKeepKeys(wide, extensions, attributes[..|attributes| - 1]);
      SafeKeyIsPlain(wide, attributes[|attributes| - 1].0);
    }
  }

  /** Good and distinct keys drawn from a given set. */
  ghost predicate KeysFrom(extensions: seq<Extension>, keys: set<string>) {
    GoodKeys(extensions) && DistinctKeys(extensions) && forall i :: 0 <= i < |extensions| ==> extensions[i].0 in keys
  }

  lemma AddedKey(present: bool, extensions: seq<Extension>, keys: set<string>, key: string, value: string)
    requires KeysFrom(extensions, keys) && key !in keys && GoodKey(key)
    ensures KeysFrom(AddIf(present, extensions, key, value), keys + {key})
  {
  }

  lemma FixedKeys(e: Event)
    ensures KeysFrom(Fixed(e), FIRST_KEYS)
  {
    assert GoodKey("rt") && GoodKey("cs1Label") && GoodKey("cs1");
  }

  lemma KeyNames()
    ensures GoodKey("dvchost") && GoodKey("dvc") && GoodKey("msg") && GoodKey("cs2Label") && GoodKey("cs2") &&
        GoodKey("externalId")
    ensures "dvchost" !in FIRST_KEYS
    ensures "dvc" !in FIRST_KEYS + {"dvchost"}
    ensures "msg" !in FIRST_KEYS + {"dvchost"} + {"dvc"}
    ensures "cs2Label" !in FIRST_KEYS + {"dvchost"} + {"dvc"} + {"msg"}
    ensures "cs2" !in FIRST_KEYS + {"dvchost"} + {"dvc"} + {"msg"} + {"cs2Label"}
    ensures "externalId" !in FIRST_KEYS + {"dvchost"} + {"dvc"} + {"msg"} + {"cs2Label"} + {"cs2"}
  {
  }

  lemma MappedKeysGood(e: Event)
    ensures GoodKeys(Mapped(e)) && DistinctKeys(Mapped(e)) && Mapped(e) != []
  {
    hide GoodKey, Fixed, AddIf, GoodKeys, DistinctKeys;
    FixedKeys(e);
    KeyNames();
    var keys := FIRST_KEYS;
    var a := AddIf(e.hostname != "", Fixed(e), "dvchost", e.hostname);
    AddedKey(e.hostname != "", Fixed(e), keys, "dvchost", e.hostname);
    var b := AddIf(e.ip != "", a, "dvc", e.ip);
    AddedKey(e.ip != "", a, keys + {"dvchost"}, "dvc", e.ip);
    var c := AddIf(e.message != "", b, "msg", e.message);
    AddedKey(e.message != "", b, keys + {"dvchost"} + {"dvc"}, "msg", e.message);
    var l := AddIf(e.objectType != "", c, "cs2Label", "objectType");
    AddedKey(e.objectType != "", c, keys + {"dvchost"} + {"dvc"} + {"msg"}, "cs2Label", "objectType");
    var d := AddIf(e.objectType != "", l, "cs2", e.objectType);
    AddedKey(e.objectType != "", l, keys + {"dvchost"} + {"dvc"} + {"msg"} + {"cs2Label"}, "cs2", e.objectType);
    AddedKey(e.objectId != "", d, keys + {"dvchost"} + {"dvc"} + {"msg"} + {"cs2Label"} +
        {"cs2"}, "externalId", e.objectId);
    assert KeysFrom(Mapped(e), keys + {"dvchost"} + {"dvc"} + {"msg"} + {"cs2Label"} + {"cs2"} + {"externalId"});
    MappedNonEmpty(e);
  }

  lemma MappedNonEmpty(e: Event)
    ensures Mapped(e) != []
  {
  }

  lemma SevenFields(e: Event)
    ensures |HeaderFields(e)| == 7
  {
  }

  /** A record can be read back: all seven header fields exactly, every extension key in
      order with none repeated and the mapped ones first, and every value as read back. */
  lemma EventRoundTrip(wide: char -> bool, e: Event)
    ensures var extensions := Extensions(wide, e);
      var body := JoinExtensions(extensions);
      && ReadHeader(JoinHeader(HeaderFields(e)) + body, 7) == Some((HeaderFields(e), body))
      && ReadExtensions(body) == AllReadBack(extensions)
      && DistinctKeys(extensions) && Mapped(e) <= extensions
  {
    hide Mapped, HeaderFields, JoinHeader, JoinExtensions, ReadHeader, ReadSegments, Segments;
    SevenFields(e);
    MappedKeysGood(e);
    AttributesKeepKeys(wide, Mapped(e), e.attributes);
    HeaderRoundTrip(HeaderFields(e), JoinExtensions(Extensions(wide, e)));
    ExtensionsRoundTrip(Extensions(wide, e));
  }

  // ------------------------------------------------------- one record, one line

  lemma OneLineConcat(a: string, b: string)
    ensures OneLine(a + b) <==> OneLine(a) && OneLine(b)
  {
    if OneLine(a + b) {
      assert forall i :: 0 <= i < |a| ==> a[i] == (a + b)[i];
      assert forall i :: 0 <= i < |b| ==> b[i] == (a + b)[|a| + i];
    }
  }

  lemma {:induction false} EscapeKeepsLines(s: string, special: char)
    requires special != '\\' && special != '\r' && special != '\n'
    ensures OneLine(Escape(s, special)) <==> OneLine(s)
  {
    hide OneLine, Escape;
    EscapeMarks(s, special);
    if s == [] {
      assert Escape(s, special) == s;
    } else {
      EscapeKeepsLines(s[1..], special);
      OneLineConcat(Mark(s[0], special), Escape(s[1..], special));
      OneLineConcat([s[0]], s[1..]);
      assert [s[0]] + s[1..] == s;
      MarkKeepsLines(s[0], special);
    }
  }

  lemma MarkKeepsLines(c: char, special: char)
    requires special != '\r' && special != '\n'
    ensures OneLine(Mark(c, special)) <==> OneLine([c])
  {
  }

  predicate AllOneLine(fields: seq<string>) { forall i :: 0 <= i < |fields| ==> OneLine(fields[i]) }

  lemma {:induction false} HeaderLines(fields: seq<string>)
    ensures OneLine(JoinHeader(fields)) <==> AllOneLine(fields)
  {
    hide OneLine, Escape;
    if fields == [] {
      NothingIsOneLine();
    } else {
      HeaderLines(fields[1..]);
      EscapeKeepsLines(fields[0], '|');
      OneLineConcat(EscapeHeader(fields[0]) + ['|'], JoinHeader(fields[1..]));
      OneLineConcat(EscapeHeader(fields[0]), ['|']);
      NothingIsOneLine();
      assert AllOneLine(fields) <==> OneLine(fields[0]) && AllOneLine(fields[1..]);
    }
  }

  lemma NothingIsOneLine()
    ensures OneLine([]) && OneLine("|") && OneLine("=") && OneLine(" ")
  {
  }

  predicate LineKeys(extensions: seq<Extension>) { forall i :: 0 <= i < |extensions| ==> OneLine(extensions[i].0) }

  lemma {:induction false} ExtensionLines(extensions: seq<Extension>)
    requires LineKeys(extensions)
    ensures OneLine(JoinExtensions(extensions))
  {
    hide OneLine, EscapeValue;
    NothingIsOneLine();
    if extensions != [] {
      var (key, value) := extensions[0];
      QuietValueHasNoNewline(value);
      assert OneLine(key);
      OneLineConcat(key, ['=']);
      OneLineConcat(key + ['='], EscapeValue(value));
      if |extensions| > 1 {
        ExtensionLines(extensions[1..]);
        OneLineConcat(key + ['='] + EscapeValue(value), [' ']);
        OneLineConcat(key + ['='] + EscapeValue(value) + [' '], JoinExtensions(extensions[1..]));
      }
    }
  }

  lemma {:induction false} SafeKeyIsOneLine(wide: char -> bool, key: string)
    ensures OneLine(SafeKey(wide, key))
  {
    if key != [] { SafeKeyIsOneLine(wide, key[1..]); }
  }

  lemma {:induction false} AttributeKeysOneLine(wide: char -> bool, extensions: seq<Extension>,
      attributes: seq<Extension>)
    requires LineKeys(extensions)
    ensures LineKeys(WithAttributes(wide, extensions, attributes))
  {
    hide OneLine, SafeKey, HasKey;
    if attributes != [] {
      AttributeKeysOneLine(wide, extensions, attributes[..|attributes| - 1]);
      SafeKeyIsOneLine(wide, attributes[|attributes| - 1].0);
    }
  }

  lemma AddedLine(present: bool, extensions: seq<Extension>, key: string, value: string)
    requires LineKeys(extensions) && OneLine(key)
    ensures LineKeys(AddIf(present, extensions, key, value))
  {
    hide OneLine;
  }

  lemma NamesAreLines()
    ensures OneLine("dvchost") && OneLine("dvc") && OneLine("msg") && OneLine("cs2Label") && OneLine("cs2") &&
        OneLine("externalId")
  {
  }

  lemma FixedLines(e: Event)
    ensures LineKeys(Fixed(e))
  {
  }

  lemma MappedKeysOneLine(e: Event)
    ensures LineKeys(Mapped(e))
  {
    hide OneLine, LineKeys, AddIf, Fixed;
    NamesAreLines();
    FixedLines(e);
    var a := AddIf(e.hostname != "", Fixed(e), "dvchost", e.hostname);
    AddedLine(e.hostname != "", Fixed(e), "dvchost", e.hostname);
    var b := AddIf(e.ip != "", a, "dvc", e.ip);
    AddedLine(e.ip != "", a, "dvc", e.ip);
    var c := AddIf(e.message != "", b, "msg", e.message);
    AddedLine(e.message != "", b, "msg", e.message);
    var l := AddIf(e.objectType != "", c, "cs2Label", "objectType");
    AddedLine(e.objectType != "", c, "cs2Label", "objectType");
    var d := AddIf(e.objectType != "", l, "cs2", e.objectType);
    AddedLine(e.objectType != "", l, "cs2", e.objectType);
    AddedLine(e.objectId != "", d, "externalId", e.objectId);
  }

  lemma HeaderFieldLines(e: Event)
    ensures AllOneLine(HeaderFields(e)) <==> OneLine(e.signatureId) && OneLine(e.title)
  {
    var fields := HeaderFields(e);
    assert OneLine(fields[0]) && OneLine(fields[1]) && OneLine(fields[2]) && OneLine(fields[3]) && OneLine(fields[6]);
    assert fields[4] == e.signatureId && fields[5] == e.title;
  }

  /** A record is one line exactly when the signature id and the title of its event are:
      headers are escaped but not folded, everything else is folded or filtered. */
  lemma RecordIsOneLine(wide: char -> bool, e: Event)
    ensures OneLine(JoinHeader(HeaderFields(e)) + JoinExtensions(Extensions(wide, e))) <==>
      OneLine(e.signatureId) && OneLine(e.title)
  {
    hide OneLine, HeaderFields, Mapped, JoinHeader, JoinExtensions, AllOneLine, LineKeys;
    HeaderFieldLines(e);
    HeaderLines(HeaderFields(e));
    MappedKeysOneLine(e);
    AttributeKeysOneLine(wide, Mapped(e), e.attributes);
    ExtensionLines(Extensions(wide, e));
    OneLineConcat(JoinHeader(HeaderFields(e)), JoinExtensions(Extensions(wide, e)));
  }

  // ------------------------------------------------ which field is read where

  function ValueOf(extensions: seq<Extension>, key: string): Option<string> {
    if extensions == [] then None
    else if extensions[0].0 == key then Some(extensions[0].1)
    else ValueOf(extensions[1..], key)
  }

  lemma {:induction false} ReadBackIsFound(extensions: seq<Extension>, x: Extension)
    requires DistinctKeys(extensions) && x in extensions
    ensures ValueOf(AllReadBack(extensions), x.0) == Some(ReadBack(x.1))
  {
    hide ReadBack;
    if extensions[0] != x {
      var i :| 0 <= i < |extensions| && extensions[i] == x;
      assert extensions[1..][i - 1] == x;
      ReadBackIsFound(extensions[1..], x);
      assert AllReadBack(extensions)[1..] == AllReadBack(extensions[1..]);
    }
  }

  lemma AddedIsThere(present: bool, extensions: seq<Extension>, key: string, value: string)
    ensures present ==> (key, value) in AddIf(present, extensions, key, value)
    ensures forall x :: x in extensions ==> x in AddIf(present, extensions, key, value)
  {
  }

  lemma MappedFields(e: Event)
    ensures var all := Mapped(e);
      && ("rt", e.millis) in all && ("cs1Label", "severity") in all && ("cs1", SeverityName(e.severity)) in all
      && (e.hostname != "" ==> ("dvchost", e.hostname) in all)
      && (e.ip != "" ==> ("dvc", e.ip) in all)
      && (e.message != "" ==> ("msg", e.message) in all)
      && (e.objectType != "" ==> ("cs2Label", "objectType") in all && ("cs2", e.objectType) in all)
      && (e.objectId != "" ==> ("externalId", e.objectId) in all)
  {
    hide AddIf;
    var a := AddIf(e.hostname != "", Fixed(e), "dvchost", e.hostname);
    AddedIsThere(e.hostname != "", Fixed(e), "dvchost", e.hostname);
    var b := AddIf(e.ip != "", a, "dvc", e.ip);
    AddedIsThere(e.ip != "", a, "dvc", e.ip);
    var c := AddIf(e.message != "", b, "msg", e.message);
    AddedIsThere(e.message != "", b, "msg", e.message);
    var l := AddIf(e.objectType != "", c, "cs2Label", "objectType");
    AddedIsThere(e.objectType != "", c, "cs2Label", "objectType");
    var d := AddIf(e.objectType != "", l, "cs2", e.objectType);
    AddedIsThere(e.objectType != "", l, "cs2", e.objectType);
    AddedIsThere(e.objectId != "", d, "externalId", e.objectId);
    FixedFields(e);
  }

  lemma FixedFields(e: Event)
    ensures ("rt", e.millis) in Fixed(e) && ("cs1Label", "severity") in Fixed(e)
    ensures ("cs1", SeverityName(e.severity)) in Fixed(e)
  {
  }

  /** Reading a record back gives every field of the event in its place: the signature id and
      the title in the header, and under its own key each value the event has. */
  lemma EventFieldsRead(wide: char -> bool, e: Event)
    ensures var body := JoinExtensions(Extensions(wide, e));
      var header := ReadHeader(JoinHeader(HeaderFields(e)) + body, 7);
      var read := ReadExtensions(body);
      var fields := ["CEF:0", "NetSecOps", "NetSecOps", "1.0", e.signatureId, e.title, SeverityNumber(e.severity)];
      && header == Some((fields, body))
      && ValueOf(read, "rt") == Some(ReadBack(e.millis))
      && ValueOf(read, "cs1Label") == Some(ReadBack("severity"))
      && ValueOf(read, "cs1") == Some(ReadBack(SeverityName(e.severity)))
      && (e.hostname != "" ==> ValueOf(read, "dvchost") == Some(ReadBack(e.hostname)))
      && (e.ip != "" ==> ValueOf(read, "dvc") == Some(ReadBack(e.ip)))
      && (e.message != "" ==> ValueOf(read, "msg") == Some(ReadBack(e.message)))
      && (e.objectType != "" ==> ValueOf(read, "cs2Label") == Some(ReadBack("objectType")))
      && (e.objectType != "" ==> ValueOf(read, "cs2") == Some(ReadBack(e.objectType)))
      && (e.objectId != "" ==> ValueOf(read, "externalId") == Some(ReadBack(e.objectId)))
  {
    hide Mapped, JoinHeader, JoinExtensions, ReadHeader, ReadExtensions, ValueOf, AllReadBack, ReadBack, SeverityName;
    EventRoundTrip(wide, e);
    MappedFields(e);
    var all := Extensions(wide, e);
    forall x | x in Mapped(e) ensures ValueOf(AllReadBack(all), x.0) == Some(ReadBack(x.1)) {
      assert x in all;
      ReadBackIsFound(all, x);
    }
  }

  /** A custom attribute is read back under its key, less the characters that do not belong
      in one, unless that leaves nothing or the key is already taken. */
  lemma {:induction false} AttributeIsAdded(wide: char -> bool, extensions: seq<Extension>,
      attributes: seq<Extension>, n: nat)
    requires n < |attributes| && SafeKey(wide, attributes[n].0) != []
    requires !HasKey(extensions, SafeKey(wide, attributes[n].0))
    requires forall i :: 0 <= i < n ==> SafeKey(wide, attributes[i].0) != SafeKey(wide, attributes[n].0)
    ensures (SafeKey(wide, attributes[n].0), attributes[n].1) in WithAttributes(wide, extensions, attributes)
    decreases |attributes|
  {
    hide SafeKey;
    var m := |attributes| - 1;
    if n < m {
      AttributeIsAdded(wide, extensions, attributes[..m], n);
    } else {
      KeyIsFree(wide, extensions, attributes[..m], SafeKey(wide, attributes[n].0));
    }
  }

  lemma {:induction false} KeyIsFree(wide: char -> bool, extensions: seq<Extension>, attributes: seq<Extension>,
      key: string)
    requires !HasKey(extensions, key) && forall i :: 0 <= i < |attributes| ==> SafeKey(wide, attributes[i].0) != key
    ensures !HasKey(WithAttributes(wide, extensions, attributes), key)
  {
    hide SafeKey;
    if attributes != [] { KeyIsFree(wide, extensions, attributes[..|attributes| - 1], key); }
  }

  function Decimal(digits: string): int {
    if digits == [] then 0
    else Decimal(digits[..|digits| - 1]) * 10 + (digits[|digits| - 1] as int - '0' as int)
  }

  /** The severity number falls with the severity, from 10. */
  lemma SeverityFalls()
    ensures 10 == Decimal(SeverityNumber(Critical)) > Decimal(SeverityNumber(High)) > Decimal(SeverityNumber(Medium))
         > Decimal(SeverityNumber(Low)) > Decimal(SeverityNumber(Info)) > 0
  {
    assert "10"[..1] == "1";
  }

  /** No value is longer than the limit, and one that was cut ends in the mark that says so. */
  lemma ValuesAreBounded(value: string)
    ensures |EscapeValue(value)| <= MAX_VALUE
    ensures |Fold(Escape(value, '='))| > MAX_VALUE ==>
      |EscapeValue(value)| == MAX_VALUE && EscapeValue(value)[MAX_VALUE - 1] == '\U{2026}'
  {
    hide Fold, Escape;
  }
}
