/** Splitting what the user types into words (client/command_line.cpp). */
module CommandWords {
  import opened Text

  const BACKSLASH: Byte := '\\'
  const SINGLE: Byte := '\''
  const DOUBLE: Byte := '"'

  // ---------------------------------------------------------------- the splitter

  /** The loop's variables; no quote is open when `quote` is None. */
  datatype Scan = Scan(words: seq<Bytes>, current: Bytes, quote: Option<Byte>, escaped: bool, inWord: bool)

  const START := Scan([], [], None, false, false)

  function Feed(s: Scan, c: Byte): Scan {
    if s.escaped then s.(current := s.current + [c], escaped := false, inWord := true)
    else if c == BACKSLASH then s.(escaped := true, inWord := true)
    else if s.quote.Some? then
      if c == s.quote.value then s.(quote := None, inWord := true) else s.(current := s.current + [c], inWord := true)
    else if c == SINGLE || c == DOUBLE then s.(quote := Some(c), inWord := true)
    else if IsSpace(c) then Scan(if s.inWord then s.words + [s.current] else s.words, [], None, false, false)
    else s.(current := s.current + [c], inWord := true)
  }

  function ScanAll(s: Scan, line: Bytes): Scan
    decreases |line|
  {
    if line == [] then s else ScanAll(Feed(s, line[0]), line[1..])
  }

  function Finish(s: Scan): seq<Bytes> {
    var last := if s.escaped then s.current + [BACKSLASH] else s.current;
    if s.inWord then s.words + [last] else s.words
  }

  function ParseWords(line: Bytes): seq<Bytes> {
    Finish(ScanAll(START, line))
  }

  lemma {:induction false} ScanConcat(s: Scan, a: Bytes, b: Bytes)
    ensures ScanAll(s, a + b) == ScanAll(ScanAll(s, a), b)
    decreases |a|
  {
    if a == [] {
      assert a + b == b;
    } else {
      assert (a + b)[1..] == a[1..] + b;
      ScanConcat(Feed(s, a[0]), a[1..], b);
    }
  }

  lemma ScanNone(s: Scan)
    ensures ScanAll(s, []) == s
  {
  }

  lemma ScanOne(s: Scan, c: Byte)
    ensures ScanAll(s, [c]) == Feed(s, c)
  {
    assert [c][1..] == [];
  }

  method ParseCommandWords(line: Bytes) returns (words: seq<Bytes>)
    ensures words == ParseWords(line)
  {
    words := [];
    var current: Bytes, quote: Option<Byte>, escaped, inWord, i := [], None, false, false, 0;
    while i < |line|
      invariant i <= |line|
      invariant ScanAll(START, line) == ScanAll(Scan(words, current, quote, escaped, inWord), line[i..])
    {
      var c := line[i];
      assert line[i..][1..] == line[i + 1..];
      i := i + 1;
      if escaped {
        current := current + [c];
        escaped := false;
      } else if c == BACKSLASH {
        escaped := true;
      } else if quote.Some? {
        if c == quote.value {
          quote := None;
        } else {
          current := current + [c];
        }
      } else if c == SINGLE || c == DOUBLE {
        quote := Some(c);
      } else if IsSpace(c) {
        if inWord {
          words := words + [current];
        }
        current := [];
        inWord := false;
        continue;
      } else {
        current := current + [c];
      }
      inWord := true;
    }
    assert line[i..] == [];
    if escaped {
      current := current + [BACKSLASH];
    }
    if inWord {
      words := words + [current];
    }
  }

  // ---------------------------------------------------------------- every way to spell a word

  /** One character inside quotes: itself, or after a backslash. */
  datatype Inner = Same(c: Byte) | Slash(c: Byte) {
    function Text(): Bytes {
      if Same? then [c] else [BACKSLASH, c]
    }
  }

  /** A part of a word: a character, an escaped character, or a quoted stretch. */
  datatype Atom = Plain(c: Byte) | Escaped(c: Byte) | Quoted(mark: Byte, inner: seq<Inner>) {
    predicate Valid() {
      match this
      case Plain(c) => IsPlain(c)
      case Escaped(_) => true
      case Quoted(mark, inner) => (mark == SINGLE || mark == DOUBLE) && ValidInner(mark, inner)
    }

    function Text(): Bytes {
      match this
      case Plain(c) => [c]
      case Escaped(c) => [BACKSLASH, c]
      case Quoted(mark, inner) => [mark] + InnerText(inner) + [mark]
    }

    function Value(): Bytes {
      match this
      case Plain(c) => [c]
      case Escaped(c) => [c]
      case Quoted(_, inner) => InnerValue(inner)
    }
  }

  predicate ValidInner(mark: Byte, inner: seq<Inner>) {
    forall k | k in inner :: k.Same? ==> k.c != mark && k.c != BACKSLASH
  }

  function InnerText(inner: seq<Inner>): Bytes {
    if inner == [] then [] else inner[0].Text() + InnerText(inner[1..])
  }

  function InnerValue(inner: seq<Inner>): Bytes {
    if inner == [] then [] else [inner[0].c] + InnerValue(inner[1..])
  }

  function AtomsText(atoms: seq<Atom>): Bytes {
    if atoms == [] then [] else atoms[0].Text() + AtomsText(atoms[1..])
  }

  function AtomsValue(atoms: seq<Atom>): Bytes {
    if atoms == [] then [] else atoms[0].Value() + AtomsValue(atoms[1..])
  }

  /** A word with the spaces that follow it. */
  datatype Spelled = Spelled(atoms: seq<Atom>, gap: Bytes) {
    predicate Valid() {
      atoms != [] && (forall a | a in atoms :: a.Valid()) && forall c | c in gap :: IsSpace(c)
    }
  }

  /** Every word but the last is followed by a space. */
  predicate ValidLine(line: seq<Spelled>) {
    forall i | 0 <= i < |line| :: line[i].Valid() && (i < |line| - 1 ==> line[i].gap != [])
  }

  function LineText(line: seq<Spelled>): Bytes {
    if line == [] then [] else AtomsText(line[0].atoms) + line[0].gap + LineText(line[1..])
  }

  function LineWords(line: seq<Spelled>): seq<Bytes> {
    if line == [] then [] else [AtomsValue(line[0].atoms)] + LineWords(line[1..])
  }

  lemma ScanTwo(s: Scan, c: Byte, d: Byte)
    ensures ScanAll(s, [c, d]) == Feed(Feed(s, c), d)
  {
    assert [c, d][1..] == [d];
    ScanOne(Feed(s, c), d);
  }

  lemma ScanInnerOne(s: Scan, k: Inner)
    requires s.quote.Some? && !s.escaped && s.inWord && (k.Same? ==> k.c != s.quote.value && k.c != BACKSLASH)
    ensures ScanAll(s, k.Text()) == s.(current := s.current + [k.c])
  {
    hide ScanAll;
    if k.Same? {
      ScanOne(s, k.c);
    } else {
      ScanTwo(s, BACKSLASH, k.c);
    }
  }

  lemma {:induction false} ScanInner(s: Scan, inner: seq<Inner>)
    requires s.quote.Some? && !s.escaped && s.inWord && ValidInner(s.quote.value, inner)
    ensures ScanAll(s, InnerText(inner)) == s.(current := s.current + InnerValue(inner))
    decreases |inner|
  {
    hide ScanAll, Feed, Inner.Text;
    ScanNone(s);
    if inner == [] {
      assert s.current + [] == s.current;
    } else {
      var k := inner[0];
      assert k in inner && forall other | other in inner[1..] :: other in inner;
      ScanInnerOne(s, k);
      ScanConcat(s, k.Text(), InnerText(inner[1..]));
      ScanInner(s.(current := s.current + [k.c]), inner[1..]);
      Regroup(s.current, [k.c], InnerValue(inner[1..]));
    }
  }

  lemma ScanAtom(s: Scan, atom: Atom)
    requires s.quote.None? && !s.escaped && atom.Valid()
    ensures ScanAll(s, atom.Text()) == s.(current := s.current + atom.Value(), inWord := true)
  {
    match atom
    case Plain(c) => ScanOne(s, c);
    case Escaped(c) => ScanTwo(s, BACKSLASH, c);
    case Quoted(mark, inner) =>
      var inside := Feed(s, mark);
      ScanInner(inside, inner);
      ScanOne(s, mark);
      ScanOne(inside.(current := s.current + InnerValue(inner)), mark);
      ScanConcat(s, [mark], InnerText(inner));
      ScanConcat(s, [mark] + InnerText(inner), [mark]);
  }

  lemma {:induction false} ScanAtoms(s: Scan, atoms: seq<Atom>)
    requires s.quote.None? && !s.escaped && forall a | a in atoms :: a.Valid()
    ensures ScanAll(s, AtomsText(atoms)) ==
            s.(current := s.current + AtomsValue(atoms), inWord := s.inWord || atoms != [])
    decreases |atoms|
  {
    hide ScanAll, Feed, Atom.Text, Atom.Value;
    ScanNone(s);
    if atoms == [] {
      assert s.current + [] == s.current;
    } else {
      assert atoms[0] in atoms && forall other | other in atoms[1..] :: other in atoms;
      ScanAtom(s, atoms[0]);
      ScanConcat(s, atoms[0].Text(), AtomsText(atoms[1..]));
      ScanAtoms(s.(current := s.current + atoms[0].Value(), inWord := true), atoms[1..]);
      Regroup(s.current, atoms[0].Value(), AtomsValue(atoms[1..]));
    }
  }

  /** Spaces close the current word, once. */
  lemma {:induction false} ScanGap(s: Scan, gap: Bytes)
    requires s.quote.None? && !s.escaped && gap != [] && forall c | c in gap :: IsSpace(c)
    ensures ScanAll(s, gap) == Scan(if s.inWord then s.words + [s.current] else s.words, [], None, false, false)
    decreases |gap|
  {
    assert gap[0] in gap && forall c | c in gap[1..] :: c in gap;
    if |gap| > 1 {
      ScanGap(Feed(s, gap[0]), gap[1..]);
    }
  }

  lemma {:induction false} ScanLine(s: Scan, line: seq<Spelled>)
    requires s == Scan(s.words, [], None, false, false) && ValidLine(line)
    ensures Finish(ScanAll(s, LineText(line))) == s.words + LineWords(line)
    decreases |line|
  {
    hide ScanAll, Feed, AtomsText, AtomsValue, Atom.Valid;
    ScanNone(s);
    if line != [] {
      var word, rest := line[0], line[1..];
      var text, value := AtomsText(word.atoms), AtomsValue(word.atoms);
      ScanAtoms(s, word.atoms);
      assert [] + value == value;
      ScanConcat(s, text, word.gap);
      ScanConcat(s, text + word.gap, LineText(rest));
      if word.gap == [] {
        assert rest == [];
        assert LineText(line) == text + [] + [] == text;
        assert LineWords(line) == [value] + [];
      } else {
        ScanGap(Scan(s.words, value, None, false, true), word.gap);
        ScanLine(Scan(s.words + [value], [], None, false, false), rest);
        Regroup(s.words, [value], LineWords(rest));
      }
    }
  }

  /** However words are spelled (plain, escaped, in either quotes, glued together, empty) and spaced out, the splitter
      finds exactly these words. */
  lemma SpelledWordsAreFound(lead: Bytes, line: seq<Spelled>)
    requires ValidLine(line) && forall c | c in lead :: IsSpace(c)
    ensures ParseWords(lead + LineText(line)) == LineWords(line)
  {
    ScanConcat(START, lead, LineText(line));
    if lead != [] {
      ScanGap(START, lead);
    }
    ScanLine(START, line);
  }

  // ---------------------------------------------------------------- printing

  function Escapes(word: Bytes): seq<Inner> {
    seq(|word|, i requires 0 <= i < |word| => Slash(word[i]))
  }

  /** Each word in double quotes with every character escaped, one space after it. */
  function Printed(words: seq<Bytes>): seq<Spelled> {
    seq(|words|, i requires 0 <= i < |words| => Spelled([Quoted(DOUBLE, Escapes(words[i]))], [' ']))
  }

  function Print(words: seq<Bytes>): Bytes {
    LineText(Printed(words))
  }

  lemma {:induction false} EscapesValue(word: Bytes)
    ensures InnerValue(Escapes(word)) == word
    decreases |word|
  {
    if word != [] {
      assert Escapes(word)[1..] == Escapes(word[1..]);
      EscapesValue(word[1..]);
    }
  }

  lemma {:induction false} PrintedWords(words: seq<Bytes>)
    ensures LineWords(Printed(words)) == words
    decreases |words|
  {
    if words != [] {
      var first := Printed(words)[0];
      assert Printed(words)[1..] == Printed(words[1..]);
      PrintedWords(words[1..]);
      EscapesValue(words[0]);
      assert first.atoms[1..] == [];
      assert AtomsValue(first.atoms) == words[0] + [] == words[0];
    }
  }

  /** Splitting inverts printing, for every list of words, empty ones too. */
  lemma ParsePrint(words: seq<Bytes>)
    ensures ParseWords(Print(words)) == words
  {
    var line := Printed(words);
    forall i | 0 <= i < |line| ensures line[i].Valid() && line[i].gap != [] {
      assert ValidInner(DOUBLE, Escapes(words[i]));
    }
    SpelledWordsAreFound([], line);
    assert [] + LineText(line) == LineText(line);
    PrintedWords(words);
  }

  // ---------------------------------------------------------------- lines that stop short

  /** A quote left open runs to the end of the line: closing it there changes nothing. */
  lemma OpenQuoteRunsToEnd(line: Bytes)
    requires var s := ScanAll(START, line); s.quote.Some? && !s.escaped
    ensures ParseWords(line + [ScanAll(START, line).quote.value]) == ParseWords(line)
  {
    var s := ScanAll(START, line);
    QuotesAreMarks(START, line);
    ScanConcat(START, line, [s.quote.value]);
    ScanOne(s, s.quote.value);
  }

  /** A lone backslash at the end stands for itself: it means the same as two. */
  lemma LastBackslashIsKept(line: Bytes)
    requires ScanAll(START, line).escaped
    ensures ParseWords(line + [BACKSLASH]) == ParseWords(line)
  {
    var s := ScanAll(START, line);
    QuotesAreMarks(START, line);
    ScanConcat(START, line, [BACKSLASH]);
    ScanOne(s, BACKSLASH);
  }

  lemma {:induction false} QuotesAreMarks(s: Scan, line: Bytes)
    requires (s.quote.Some? ==> s.inWord && (s.quote.value == SINGLE || s.quote.value == DOUBLE)) &&
             (s.escaped ==> s.inWord)
    ensures var r := ScanAll(s, line);
            && (r.quote.Some? ==> r.inWord && (r.quote.value == SINGLE || r.quote.value == DOUBLE))
            && (r.escaped ==> r.inWord)
    decreases |line|
  {
    if line != [] {
      QuotesAreMarks(Feed(s, line[0]), line[1..]);
    }
  }

  // ---------------------------------------------------------------- commands

  const VERBS: set<Bytes> := {
    B("create"), B("join"), B("leave"), B("list"), B("accept"), B("upload"), B("download"), B("stop"), B("show"),
    B("cancel"), B("remove")
  }

  datatype CommandLine = CommandLine(name: Bytes, args: seq<Bytes>)

  function Normalise(words: seq<Bytes>): CommandLine {
    if words == [] then CommandLine([], [])
    else if |words| >= 2 && '_' !in words[0] && words[0] in VERBS then
      CommandLine(Joined(words[0], words[1]), words[2..])
    else CommandLine(words[0], words[1..])
  }

  function Parse(line: Bytes): CommandLine {
    Normalise(ParseWords(line))
  }

  /** Characters that stand for themselves outside quotes. */
  predicate IsPlain(c: Byte) {
    c != BACKSLASH && c != SINGLE && c != DOUBLE && !IsSpace(c)
  }

  lemma VerbsArePlain(verb: Bytes)
    requires verb in VERBS
    ensures '_' !in verb && verb != [] && forall c | c in verb :: IsPlain(c)
  {
  }

  lemma {:induction false} ScanPlain(s: Scan, word: Bytes)
    requires s.quote.None? && !s.escaped && forall c | c in word :: IsPlain(c)
    ensures ScanAll(s, word) == s.(current := s.current + word, inWord := s.inWord || word != [])
    decreases |word|
  {
    if word == [] {
      assert s.current + [] == s.current;
    } else {
      assert word[0] in word && forall c | c in word[1..] :: c in word;
      ScanPlain(Feed(s, word[0]), word[1..]);
      Regroup(s.current, [word[0]], word[1..]);
      assert [word[0]] + word[1..] == word;
    }
  }

  /** Words found before only stay in front. */
  lemma {:induction false} ScanPrefix(front: seq<Bytes>, s: Scan, line: Bytes)
    ensures ScanAll(s.(words := front + s.words), line) ==
            ScanAll(s, line).(words := front + ScanAll(s, line).words)
    decreases |line|
  {
    if line != [] {
      Regroup(front, s.words, [s.current]);
      ScanPrefix(front, Feed(s, line[0]), line[1..]);
    }
  }

  function Joined(verb: Bytes, noun: Bytes): Bytes {
    verb + (Sep('_') + noun)
  }

  lemma JoinedMore(verb: Bytes, noun: Bytes, c: Byte)
    ensures Joined(verb, noun) + [c] == Joined(verb, noun + [c])
  {
  }

  /** Two scans in step, one of the spaced and one of the underscored line, from inside the second word on. */
  ghost predicate Alike(verb: Bytes, a: Scan, b: Scan) {
    && a.words != [] && a.words[0] == verb && a.quote == b.quote && a.escaped == b.escaped && a.inWord == b.inWord
    && if |a.words| == 1 then b.words == [] && a.inWord && b.current == Joined(verb, a.current)
       else b.current == a.current && b.words == [Joined(verb, a.words[1])] + a.words[2..]
  }

  lemma AlikeFeed(verb: Bytes, a: Scan, b: Scan, c: Byte)
    requires Alike(verb, a, b)
    ensures Alike(verb, Feed(a, c), Feed(b, c))
  {
    hide Joined;
    JoinedMore(verb, a.current, c);
    if |a.words| > 1 {
      assert (a.words + [a.current])[2..] == a.words[2..] + [a.current];
      Regroup([Joined(verb, a.words[1])], a.words[2..], [a.current]);
    } else {
      assert (a.words + [a.current])[2..] == [];
    }
  }

  lemma {:induction false} AlikeScan(verb: Bytes, a: Scan, b: Scan, line: Bytes)
    requires Alike(verb, a, b)
    ensures Alike(verb, ScanAll(a, line), ScanAll(b, line))
    decreases |line|
  {
    hide Alike, Feed;
    if line != [] {
      AlikeFeed(verb, a, b, line[0]);
      AlikeScan(verb, Feed(a, line[0]), Feed(b, line[0]), line[1..]);
    }
  }

  lemma JoinedCommand(verb: Bytes, noun: Bytes, args: seq<Bytes>)
    requires verb in VERBS
    ensures Normalise([verb, noun] + args) == Normalise([Joined(verb, noun)] + args) ==
            CommandLine(Joined(verb, noun), args)
  {
    VerbsArePlain(verb);
    assert Joined(verb, noun)[|verb|] == '_';
  }

  lemma AlikeFinish(verb: Bytes, a: Scan, b: Scan)
    requires verb in VERBS && Alike(verb, a, b)
    ensures Normalise(Finish(a)) == Normalise(Finish(b))
  {
    hide Joined, Normalise;
    JoinedMore(verb, a.current, BACKSLASH);
    var words := Finish(a);
    assert words == [verb, words[1]] + words[2..];
    JoinedCommand(verb, words[1], words[2..]);
    if |a.words| > 1 && a.inWord {
      var last := if a.escaped then a.current + [BACKSLASH] else a.current;
      assert words == a.words + [last] && words[2..] == a.words[2..] + [last];
      Regroup([Joined(verb, words[1])], a.words[2..], [last]);
    }
    assert Finish(b) == [Joined(verb, words[1])] + words[2..];
  }

  /** The spaced line after the verb and the gap. */
  lemma AfterSpace(verb: Bytes, gap: Bytes, rest: Bytes)
    requires verb in VERBS && gap != [] && forall c | c in gap :: IsSpace(c)
    ensures ScanAll(START, verb + gap + rest) == ScanAll(Scan([verb], [], None, false, false), rest)
  {
    hide ScanAll, Feed, VERBS;
    VerbsArePlain(verb);
    ScanPlain(START, verb);
    assert [] + verb == verb && [] + [verb] == [verb];
    ScanConcat(START, verb, gap);
    ScanConcat(START, verb + gap, rest);
    ScanGap(Scan([], verb, None, false, true), gap);
  }

  /** The underscored line after the verb and the underscore. */
  lemma AfterUnderscore(verb: Bytes, rest: Bytes)
    requires verb in VERBS
    ensures ScanAll(START, verb + ['_'] + rest) == ScanAll(Scan([], Joined(verb, []), None, false, true), rest)
  {
    hide ScanAll, Feed, VERBS;
    VerbsArePlain(verb);
    var start := verb + ['_'];
    assert forall c | c in start :: c in verb || c == '_';
    ScanPlain(START, start);
    assert [] + start == start && Joined(verb, []) == start;
    ScanConcat(START, start, rest);
  }

  /** On whatever follows, also unterminated quotes and a last backslash: spaces or an underscore after a listed verb
      give the same command if and only if a second word starts right there. */
  lemma SpacedIsUnderscored(verb: Bytes, gap: Bytes, rest: Bytes)
    requires verb in VERBS && gap != [] && forall c | c in gap :: IsSpace(c)
    ensures Parse(verb + gap + rest) == Parse(verb + ['_'] + rest) <==> rest != [] && !IsSpace(rest[0])
  {
    hide Joined, Normalise, Finish;
    AfterSpace(verb, gap, rest);
    AfterUnderscore(verb, rest);
    var a, b := Scan([verb], [], None, false, false), Scan([], Joined(verb, []), None, false, true);
    if rest != [] && !IsSpace(rest[0]) {
      JoinedMore(verb, [], rest[0]);
      assert [] + [rest[0]] == [rest[0]];
      AlikeScan(verb, Feed(a, rest[0]), Feed(b, rest[0]), rest[1..]);
      AlikeFinish(verb, ScanAll(a, rest), ScanAll(b, rest));
    } else {
      NoNoun(verb, rest);
    }
  }

  /** With nothing right after it the underscore ends the command's name, and what follows are arguments. */
  lemma NoNoun(verb: Bytes, rest: Bytes)
    requires verb in VERBS && (rest == [] || IsSpace(rest[0]))
    ensures Normalise(Finish(ScanAll(Scan([verb], [], None, false, false), rest))) !=
            Normalise(Finish(ScanAll(Scan([], Joined(verb, []), None, false, true), rest)))
  {
    hide ScanAll;
    VerbsArePlain(verb);
    var words := ParseWords(rest);
    ScanPrefix([verb], START, rest);
    assert [verb] + [] == [verb];
    FinishPrefix([verb], ScanAll(START, rest));
    EndedName(Joined(verb, []), rest);
    assert Joined(verb, [])[|verb|] == '_' && |Joined(verb, [])| == |verb| + 1;
  }

  lemma FinishPrefix(front: seq<Bytes>, s: Scan)
    ensures Finish(s.(words := front + s.words)) == front + Finish(s)
  {
    var last := if s.escaped then s.current + [BACKSLASH] else s.current;
    Regroup(front, s.words, [last]);
  }

  lemma EndedName(name: Bytes, rest: Bytes)
    requires rest == [] || IsSpace(rest[0])
    ensures Finish(ScanAll(Scan([], name, None, false, true), rest)) == [name] + ParseWords(rest)
  {
    if rest == [] {
      assert [] + [name] == [name] + [];
    } else {
      assert Feed(START, rest[0]) == START;
      assert Feed(Scan([], name, None, false, true), rest[0]) == START.(words := [name] + START.words);
      ScanPrefix([name], START, rest[1..]);
      FinishPrefix([name], ScanAll(START, rest[1..]));
    }
  }

  /** A command printed back as name and arguments parses to itself exactly when the name is not a bare verb before an
      argument. */
  lemma CommandRoundTrip(command: CommandLine)
    ensures Parse(Print([command.name] + command.args)) == command <==>
            command.args == [] || '_' in command.name || command.name !in VERBS
  {
    ParsePrint([command.name] + command.args);
  }

  /** The eleven verbs. */
  lemma VerbsExact(verb: Bytes)
    ensures verb in VERBS <==>
            || verb == "create" || verb == "join" || verb == "leave" || verb == "list" || verb == "accept"
            || verb == "upload" || verb == "download" || verb == "stop" || verb == "show" || verb == "cancel"
            || verb == "remove"
  {
    Literals();
  }

  lemma Literals()
    ensures B("create") == "create" && B("join") == "join" && B("leave") == "leave" && B("list") == "list"
    ensures B("accept") == "accept" && B("upload") == "upload" && B("download") == "download" && B("stop") == "stop"
    ensures B("show") == "show" && B("cancel") == "cancel" && B("remove") == "remove"
  {
  }

  /** A blank line is no command. */
  lemma BlankLine(line: Bytes)
    requires forall c | c in line :: IsSpace(c)
    ensures Parse(line) == CommandLine([], [])
  {
    if line != [] {
      ScanGap(START, line);
    }
  }
}
