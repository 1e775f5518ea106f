/** Byte strings and the text codecs of common/encoding.cpp.

    A std::string is a sequence of characters below 256. Each codec is a function (what it
    computes); the codecs that the program writes as loops are also methods proved equal to
    that function. */
module Text {
  type Byte = c: char | c as int < 256 witness '\0'
  type Bytes = seq<Byte>

  datatype Option<+T> = None | Some(value: T)

  /** The bytes of a literal. */
  function B(text: string): (bytes: Bytes)
    ensures |bytes| == |text|
    ensures forall i | 0 <= i < |text| && text[i] as int < 256 :: bytes[i] == text[i]
  {
    seq(|text|, i requires 0 <= i < |text| => if text[i] as int < 256 then text[i] else '?')
  }

  /** A one-byte separator. */
  function Sep(c: Byte): Bytes {
    [c]
  }

  lemma Regroup<T>(a: seq<T>, b: seq<T>, c: seq<T>)
    ensures a + (b + c) == a + b + c
  {
  }

  const U64_LIMIT: nat := 0x1_0000_0000_0000_0000

  type U64 = n: nat | n < U64_LIMIT

  // ---------------------------------------------------------------- hexadecimal

  function HexDigit(n: nat): (c: Byte)
    requires n < 16
    ensures IsHexDigit(c) && HexValue(c) == n
    ensures c != '.' && c != '/' && c != ',' && c != '|' && c != ':' && c != '$' && !IsSpace(c)
  {
    if n < 10 then '0' + n as char else 'a' + (n - 10) as char
  }

  predicate IsHexDigit(c: Byte) {
    '0' <= c <= '9' || 'a' <= c <= 'f' || 'A' <= c <= 'F'
  }

  function HexValue(c: Byte): (n: nat)
    requires IsHexDigit(c)
    ensures n < 16
  {
    if c <= '9' then c as int - '0' as int
    else if c <= 'F' then c as int - 'A' as int + 10
    else c as int - 'a' as int + 10
  }

  function ToHex(bytes: Bytes): Bytes {
    if bytes == [] then []
    else [HexDigit(bytes[0] as int / 16), HexDigit(bytes[0] as int % 16)] + ToHex(bytes[1..])
  }

  function FromHex(hex: Bytes): Option<Bytes> {
    if hex == [] then Some([])
    else if |hex| == 1 || !IsHexDigit(hex[0]) || !IsHexDigit(hex[1]) then None
    else
      match FromHex(hex[2..])
      case None => None
      case Some(rest) => Some([HexByte(hex[0], hex[1])] + rest)
  }

  function HexByte(high: Byte, low: Byte): Byte
    requires IsHexDigit(high) && IsHexDigit(low)
  {
    (HexValue(high) * 16 + HexValue(low)) as char
  }

  lemma {:induction false} HexRoundTrip(bytes: Bytes)
    ensures FromHex(ToHex(bytes)) == Some(bytes)
  {
    if bytes != [] {
      var hex := ToHex(bytes);
      assert hex[2..] == ToHex(bytes[1..]);
      HexRoundTrip(bytes[1..]);
      assert HexByte(hex[0], hex[1]) == bytes[0];
      assert bytes == [bytes[0]] + bytes[1..];
    }
  }

  lemma {:induction false} FromHexDigits(hex: Bytes)
    requires FromHex(hex).Some?
    ensures AllHex(hex)
  {
    if hex != [] {
      FromHexDigits(hex[2..]);
      assert hex == [hex[0], hex[1]] + hex[2..];
    }
  }

  function Lower(c: Byte): Byte {
    if c == 'A' then 'a' else if c == 'B' then 'b' else if c == 'C' then 'c' else if c == 'D' then 'd'
    else if c == 'E' then 'e' else if c == 'F' then 'f' else c
  }

  function Lowered(text: Bytes): Bytes {
    seq(|text|, i requires 0 <= i < |text| => Lower(text[i]))
  }

  lemma LowerDigit(c: Byte)
    requires IsHexDigit(c)
    ensures HexDigit(HexValue(c)) == Lower(c)
  {
  }

  /** Hex of either case is accepted in pairs of digits, and nothing else; encoding gives it back in lower case. */
  lemma {:induction false} FromHexExact(hex: Bytes)
    ensures FromHex(hex).Some? <==> |hex| % 2 == 0 && AllHex(hex)
    ensures FromHex(hex).Some? ==> ToHex(FromHex(hex).value) == Lowered(hex)
  {
    hide HexDigit, HexValue, Lower, IsHexDigit;
    if |hex| >= 2 {
      var rest := hex[2..];
      FromHexExact(rest);
      assert hex == [hex[0], hex[1]] + rest && hex[0] in hex && hex[1] in hex;
      if IsHexDigit(hex[0]) && IsHexDigit(hex[1]) && FromHex(rest).Some? {
        LowerDigit(hex[0]);
        LowerDigit(hex[1]);
        var value := FromHex(hex).value;
        assert value[1..] == FromHex(rest).value;
        assert Lowered(hex) == [Lower(hex[0]), Lower(hex[1])] + Lowered(rest);
      }
    } else if |hex| == 1 {
      assert |hex| % 2 == 1;
    }
  }

  lemma ToHexInjective(a: Bytes, b: Bytes)
    requires ToHex(a) == ToHex(b)
    ensures a == b
  {
    HexRoundTrip(a);
    HexRoundTrip(b);
  }

  lemma {:induction false} ToHexDigits(bytes: Bytes)
    ensures |ToHex(bytes)| == 2 * |bytes|
    ensures AllHex(ToHex(bytes))
  {
    if bytes != [] {
      ToHexDigits(bytes[1..]);
    }
  }

  predicate AllHex(text: Bytes) {
    forall c | c in text :: IsHexDigit(c)
  }

  predicate IsHex(text: Bytes, length: nat) {
    |text| == length && AllHex(text)
  }

  predicate IsSha1Hex(text: Bytes) {
    IsHex(text, 40)
  }

  method EncodeHex(bytes: Bytes) returns (hex: Bytes)
    ensures hex == ToHex(bytes)
  {
    hide HexDigit;
    hex := [];
    for i := 0 to |bytes|
      invariant hex + ToHex(bytes[i..]) == ToHex(bytes)
    {
      ghost var done, rest := hex, bytes[i..];
      var high, low := HexDigit(bytes[i] as int / 16), HexDigit(bytes[i] as int % 16);
      hex := hex + [high];
      hex := hex + [low];
      assert rest[1..] == bytes[i + 1..] && ToHex(rest) == [high, low] + ToHex(rest[1..]);
      assert hex == done + [high, low];
      Regroup(done, [high, low], ToHex(rest[1..]));
    }
  }

  /** The C++ function reports failure by its result and leaves `bytes` untouched. */
  method DecodeHex(hex: Bytes, before: Bytes) returns (ok: bool, bytes: Bytes)
    ensures ok <==> FromHex(hex).Some?
    ensures bytes == if ok then FromHex(hex).value else before
  {
    bytes := before;
    FromHexLength(hex);
    if |hex| % 2 != 0 {
      return false, bytes;
    }
    var decoded: Bytes := [];
    var i := 0;
    assert hex[0..] == hex;
    assert FromHex(hex).Some? ==> [] + FromHex(hex).value == FromHex(hex).value;
    while i < |hex|
      invariant 0 <= i <= |hex| && i % 2 == 0
      invariant FromHex(hex) == Prepend(decoded, FromHex(hex[i..]))
    {
      ghost var rest := hex[i..];
      assert rest[0] == hex[i] && rest[1] == hex[i + 1] && rest[2..] == hex[i + 2..];
      if !IsHexDigit(hex[i]) || !IsHexDigit(hex[i + 1]) {
        return false, bytes;
      }
      assert FromHex(rest) == Prepend([HexByte(hex[i], hex[i + 1])], FromHex(rest[2..]));
      PrependConcat(decoded, [HexByte(hex[i], hex[i + 1])], FromHex(rest[2..]));
      decoded := decoded + [HexByte(hex[i], hex[i + 1])];
      i := i + 2;
    }
    return true, decoded;
  }

  ghost function Prepend(front: Bytes, rest: Option<Bytes>): Option<Bytes> {
    if rest.None? then None else Some(front + rest.value)
  }

  lemma PrependConcat(a: Bytes, b: Bytes, rest: Option<Bytes>)
    ensures Prepend(a, Prepend(b, rest)) == Prepend(a + b, rest)
  {
    if rest.Some? {
      assert a + (b + rest.value) == a + b + rest.value;
    }
  }

  lemma {:induction false} FromHexLength(hex: Bytes)
    ensures FromHex(hex).Some? ==> |hex| == 2 * |FromHex(hex).value|
  {
    if |hex| >= 2 {
      FromHexLength(hex[2..]);
    }
  }

  // ---------------------------------------------------------------- decimal numbers

  function Dec(n: nat): Bytes {
    if n < 10 then [DecDigit(n)] else Dec(n / 10) + [DecDigit(n % 10)]
  }

  function DecDigit(n: nat): Byte
    requires n < 10
  {
    '0' + n as char
  }

  /** std::to_string of a signed number. */
  function DecInt(n: int): Bytes {
    if n < 0 then Sep('-') + Dec(-n) else Dec(n)
  }

  predicate IsDigit(c: Byte) {
    '0' <= c <= '9'
  }

  predicate AllDigits(text: Bytes) {
    forall c | c in text :: IsDigit(c)
  }

  function DecValue(text: Bytes): nat
    requires AllDigits(text)
  {
    if text == [] then 0
    else
      var last := |text| - 1;
      assert text[last] in text;
      DecValue(text[..last]) * 10 + (text[last] as int - '0' as int)
  }

  /** Strict decimal parsing: digits only, at least one, and no 64-bit overflow. */
  function ParseU64(text: Bytes): Option<U64> {
    if text == [] || !AllDigits(text) || DecValue(text) >= U64_LIMIT then None
    else Some(DecValue(text))
  }

  lemma {:induction false} DecDigits(n: nat)
    ensures Dec(n) != [] && AllDigits(Dec(n)) && DecValue(Dec(n)) == n
  {
    if n >= 10 {
      DecDigits(n / 10);
      var text := Dec(n);
      assert text[..|text| - 1] == Dec(n / 10);
    }
  }

  lemma ParseDec(n: nat)
    ensures ParseU64(Dec(n)) == if n < U64_LIMIT then Some(n) else None
  {
    DecDigits(n);
  }

  lemma DecIntParses(n: int)
    ensures DecInt(n) != []
    ensures forall c | c in DecInt(n) :: IsDigit(c) || c == '-'
    ensures ParseU64(DecInt(n)) == if 0 <= n < U64_LIMIT then Some(n) else None
  {
    DecDigits(if n < 0 then -n else n);
    assert n < 0 ==> DecInt(n)[0] == '-' && !IsDigit('-');
  }

  function Zeros(n: nat): Bytes {
    seq(n, _ => '0')
  }

  lemma {:induction false} ZerosValue(zeros: nat, n: nat)
    ensures AllDigits(Zeros(zeros) + Dec(n)) && DecValue(Zeros(zeros) + Dec(n)) == n
    decreases n + zeros
  {
    DecDigits(n);
    var text := Zeros(zeros) + Dec(n);
    if n >= 10 {
      ZerosValue(zeros, n / 10);
      assert text[..|text| - 1] == Zeros(zeros) + Dec(n / 10);
    } else if zeros > 0 {
      ZerosValue(zeros - 1, 0);
      assert text[..|text| - 1] == Zeros(zeros - 1) + Dec(0);
    } else {
      assert text == Dec(n);
    }
  }

  lemma {:induction false} DigitsAreNumber(text: Bytes) returns (zeros: nat)
    requires text != [] && AllDigits(text)
    ensures text == Zeros(zeros) + Dec(DecValue(text))
  {
    var last := |text| - 1;
    var front, digit := text[..last], text[last] as int - '0' as int;
    assert text[last] in text && forall c | c in front :: c in text;
    assert text == front + [text[last]];
    if front == [] {
      zeros := 0;
      assert DecValue(front) == 0 && Dec(digit) == text;
    } else {
      zeros := DigitsAreNumber(front);
      if DecValue(front) == 0 {
        zeros := zeros + 1;
        assert Dec(digit) == [text[last]] && Dec(0) == ['0'];
      } else {
        assert (DecValue(front) * 10 + digit) / 10 == DecValue(front);
      }
    }
  }

  /** Exactly the printed numbers below 2^64, with any leading zeros, parse, and to themselves. */
  lemma ParseU64Exact(text: Bytes, n: U64)
    ensures ParseU64(text) == Some(n) <==> exists zeros :: text == Zeros(zeros) + Dec(n)
  {
    hide DecValue, Dec;
    if ParseU64(text) == Some(n) {
      var zeros := DigitsAreNumber(text);
    }
    if zeros: nat :| text == Zeros(zeros) + Dec(n) {
      ZerosValue(zeros, n);
      DecDigits(n);
    }
  }

  lemma DecIntInjective(a: int, b: int)
    requires DecInt(a) == DecInt(b)
    ensures a == b
  {
    var x, y := if a < 0 then -a else a, if b < 0 then -b else b;
    DecDigits(x);
    DecDigits(y);
    assert Dec(x)[0] in Dec(x) && Dec(y)[0] in Dec(y) && !IsDigit('-');
    assert a < 0 <==> DecInt(a)[0] == '-';
    assert b < 0 <==> DecInt(b)[0] == '-';
    assert a < 0 ==> DecInt(a)[1..] == Dec(x);
    assert b < 0 ==> DecInt(b)[1..] == Dec(y);
  }

  // ---------------------------------------------------------------- split and join

  /** Position of the first `delimiter`, or the length of the text. */
  function IndexOf(text: Bytes, delimiter: Byte): (i: nat)
    ensures i <= |text| && delimiter !in text[..i]
    ensures i < |text| ==> text[i] == delimiter
  {
    if text == [] || text[0] == delimiter then 0
    else
      var rest := IndexOf(text[1..], delimiter);
      assert text[..1 + rest] == [text[0]] + text[1..][..rest];
      1 + rest
  }

  function Split(text: Bytes, delimiter: Byte): (parts: seq<Bytes>)
    ensures parts != []
    decreases |text|
  {
    var i := IndexOf(text, delimiter);
    if i == |text| then [text] else [text[..i]] + Split(text[i + 1..], delimiter)
  }

  function Join(parts: seq<Bytes>, delimiter: Byte): Bytes {
    if parts == [] then []
    else if |parts| == 1 then parts[0]
    else parts[0] + [delimiter] + Join(parts[1..], delimiter)
  }

  lemma IndexOfFirst(front: Bytes, delimiter: Byte, rest: Bytes)
    requires delimiter !in front
    ensures IndexOf(front + [delimiter] + rest, delimiter) == |front|
  {
    var text := front + [delimiter] + rest;
    assert text[|front|] == delimiter;
    assert forall k | 0 <= k < |front| :: text[k] == front[k] && front[k] in front;
    assert forall k | |front| < k <= |text| :: delimiter in text[..k] by {
      assert forall k | |front| < k <= |text| :: text[..k][|front|] == delimiter;
    }
  }

  /** One step of splitting: the text before the first delimiter, then the rest. */
  lemma SplitCons(front: Bytes, delimiter: Byte, rest: Bytes)
    requires delimiter !in front
    ensures Split(front + [delimiter] + rest, delimiter) == [front] + Split(rest, delimiter)
  {
    var text := front + [delimiter] + rest;
    IndexOfFirst(front, delimiter, rest);
    assert text[..|front|] == front && text[|front| + 1..] == rest;
  }

  lemma SplitOne(text: Bytes, delimiter: Byte)
    requires delimiter !in text
    ensures Split(text, delimiter) == [text]
  {
    assert forall k | 0 <= k < |text| :: text[k] in text;
  }

  ghost predicate Without(parts: seq<Bytes>, delimiter: Byte) {
    forall part | part in parts :: delimiter !in part
  }

  lemma {:induction false} SplitJoin(parts: seq<Bytes>, delimiter: Byte)
    requires parts != [] && Without(parts, delimiter)
    ensures Split(Join(parts, delimiter), delimiter) == parts
  {
    assert parts[0] in parts;
    if |parts| == 1 {
      SplitOne(parts[0], delimiter);
    } else {
      assert forall part | part in parts[1..] :: part in parts;
      SplitJoin(parts[1..], delimiter);
      SplitCons(parts[0], delimiter, Join(parts[1..], delimiter));
    }
  }

  lemma {:induction false} JoinSplit(text: Bytes, delimiter: Byte)
    ensures Join(Split(text, delimiter), delimiter) == text
    ensures Without(Split(text, delimiter), delimiter)
    decreases |text|
  {
    var i := IndexOf(text, delimiter);
    if i < |text| {
      JoinSplit(text[i + 1..], delimiter);
      assert text == text[..i] + [delimiter] + text[i + 1..];
    } else {
      assert text[..i] == text;
    }
  }

  lemma SplitTwo(a: Bytes, b: Bytes, x: Byte)
    requires x !in a && x !in b
    ensures Split(a + [x] + b, x) == [a, b]
  {
    SplitCons(a, x, b);
    SplitOne(b, x);
  }

  lemma SplitThree(a: Bytes, b: Bytes, c: Bytes, x: Byte)
    requires x !in a && x !in b && x !in c
    ensures Split(a + [x] + b + [x] + c, x) == [a, b, c]
  {
    SplitTwo(a, b, x);
    SplitConcat(a + [x] + b, x, c);
    SplitOne(c, x);
  }

  lemma SplitFour(a: Bytes, b: Bytes, c: Bytes, d: Bytes, x: Byte)
    requires x !in a && x !in b && x !in c && x !in d
    ensures Split(a + [x] + b + [x] + c + [x] + d, x) == [a, b, c, d]
  {
    SplitThree(a, b, c, x);
    SplitConcat(a + [x] + b + [x] + c, x, d);
    SplitOne(d, x);
  }

  lemma {:induction false} JoinChars(parts: seq<Bytes>, delimiter: Byte, c: Byte)
    requires c in Join(parts, delimiter)
    ensures c == delimiter || exists part | part in parts :: c in part
  {
    if |parts| > 1 {
      assert parts[0] in parts;
      if c in Join(parts[1..], delimiter) {
        JoinChars(parts[1..], delimiter, c);
        assert forall part | part in parts[1..] :: part in parts;
      }
    }
  }

  /** Splitting a concatenation at a delimiter concatenates the two splits. */
  lemma {:induction false} SplitConcat(a: Bytes, delimiter: Byte, b: Bytes)
    ensures Split(a + [delimiter] + b, delimiter) == Split(a, delimiter) + Split(b, delimiter)
    decreases |a|
  {
    var i := IndexOf(a, delimiter);
    if i == |a| {
      assert a[..i] == a;
      SplitCons(a, delimiter, b);
    } else {
      var front, tail := a[..i], a[i + 1..];
      assert a == front + [delimiter] + tail;
      assert a + [delimiter] + b == front + [delimiter] + (tail + [delimiter] + b);
      SplitCons(front, delimiter, tail + [delimiter] + b);
      SplitConcat(tail, delimiter, b);
    }
  }

  lemma SplitInjective(a: Bytes, b: Bytes, delimiter: Byte)
    requires Split(a, delimiter) == Split(b, delimiter)
    ensures a == b
  {
    JoinSplit(a, delimiter);
    JoinSplit(b, delimiter);
  }

  method SplitText(text: Bytes, delimiter: Byte) returns (parts: seq<Bytes>)
    ensures parts == Split(text, delimiter)
  {
    hide IndexOf;
    parts := [];
    var begin := 0;
    while true
      invariant 0 <= begin <= |text|
      invariant parts + Split(text[begin..], delimiter) == Split(text, delimiter)
      decreases |text| - begin
    {
      ghost var rest := text[begin..];
      var length := IndexOf(text[begin..], delimiter);
      var part := text[begin..begin + length];
      assert rest[..length] == part;
      if begin + length == |text| {
        assert part == rest && Split(rest, delimiter) == [rest];
        parts := parts + [part];
        return;
      }
      assert rest[length + 1..] == text[begin + length + 1..];
      assert Split(rest, delimiter) == [part] + Split(rest[length + 1..], delimiter);
      Regroup(parts, [part], Split(rest[length + 1..], delimiter));
      parts := parts + [part];
      begin := begin + length + 1;
    }
  }

  method JoinParts(parts: seq<Bytes>, delimiter: Byte) returns (joined: Bytes)
    ensures joined == Join(parts, delimiter)
  {
    joined := [];
    for i := 0 to |parts|
      invariant joined == Join(parts[..i], delimiter)
    {
      if i != 0 {
        joined := joined + [delimiter];
      }
      joined := joined + parts[i];
      JoinSnoc(parts[..i], parts[i], delimiter);
      assert parts[..i + 1] == parts[..i] + [parts[i]];
    }
    assert parts[..|parts|] == parts;
  }

  lemma {:induction false} JoinSnoc(parts: seq<Bytes>, last: Bytes, delimiter: Byte)
    ensures Join(parts + [last], delimiter) ==
            if parts == [] then last else Join(parts, delimiter) + [delimiter] + last
  {
    if |parts| >= 1 {
      assert (parts + [last])[1..] == parts[1..] + [last];
      JoinSnoc(parts[1..], last, delimiter);
    }
  }

  // ---------------------------------------------------------------- whitespace-separated words

  predicate IsSpace(c: Byte) {
    c == ' ' || 9 <= c as int <= 13
  }

  /** A word as `stream >> word` reads it. */
  predicate IsWord(text: Bytes) {
    text != [] && forall c | c in text :: !IsSpace(c)
  }

  function WordLength(text: Bytes): (n: nat)
    ensures n <= |text|
    ensures forall c | c in text[..n] :: !IsSpace(c)
    ensures n < |text| ==> IsSpace(text[n])
  {
    if text == [] || IsSpace(text[0]) then 0
    else
      var rest := WordLength(text[1..]);
      assert text[..1 + rest] == [text[0]] + text[1..][..rest];
      1 + rest
  }

  /** All the words that repeated `stream >> word` reads from `line`. */
  function Words(line: Bytes): seq<Bytes>
    decreases |line|
  {
    if line == [] then []
    else if IsSpace(line[0]) then Words(line[1..])
    else
      var n := WordLength(line);
      [line[..n]] + Words(line[n..])
  }

  lemma {:induction false} WordsAreWords(line: Bytes)
    ensures forall word | word in Words(line) :: IsWord(word)
    decreases |line|
  {
    if line != [] {
      if IsSpace(line[0]) {
        WordsAreWords(line[1..]);
      } else {
        WordsAreWords(line[WordLength(line)..]);
      }
    }
  }

  lemma WordsOne(word: Bytes)
    requires IsWord(word)
    ensures Words(word) == [word]
  {
    var n := WordLength(word);
    assert forall k | 0 <= k < |word| :: word[k] in word;
    assert word[..n] == word && word[n..] == [];
  }

  /** The whitespace characters of the C locale. */
  lemma SpaceExact(c: Byte)
    ensures IsSpace(c) <==> c in [' ', '\t', '\n', 11 as char, 12 as char, '\r']
  {
  }

  lemma {:induction false} WordEnds(word: Bytes, space: Byte, rest: Bytes)
    requires IsSpace(space) && forall c | c in word :: !IsSpace(c)
    ensures WordLength(word + [space] + rest) == |word|
    decreases |word|
  {
    var line := word + [space] + rest;
    if word == [] {
      assert line[0] == space;
    } else {
      assert line[0] == word[0] && word[0] in word;
      assert line[1..] == word[1..] + [space] + rest;
      assert forall c | c in word[1..] :: c in word;
      WordEnds(word[1..], space, rest);
    }
  }

  /** Whitespace before a word does not matter. */
  lemma {:induction false} WordsSkip(gap: Bytes, rest: Bytes)
    requires forall c | c in gap :: IsSpace(c)
    ensures Words(gap + rest) == Words(rest)
    decreases |gap|
  {
    if gap == [] {
      assert gap + rest == rest;
    } else {
      assert gap[0] in gap && forall c | c in gap[1..] :: c in gap;
      assert (gap + rest)[1..] == gap[1..] + rest;
      WordsSkip(gap[1..], rest);
    }
  }

  /** A word ends at any whitespace, however much of it there is. */
  lemma WordsSpaced(word: Bytes, gap: Bytes, rest: Bytes)
    requires IsWord(word) && gap != [] && forall c | c in gap :: IsSpace(c)
    ensures Words(word + gap + rest) == [word] + Words(rest)
  {
    var line := word + gap + rest;
    assert gap[0] in gap && line == word + [gap[0]] + (gap[1..] + rest);
    WordEnds(word, gap[0], gap[1..] + rest);
    assert line[0] == word[0] && word[0] in word;
    assert line[..|word|] == word && line[|word|..] == gap + rest;
    WordsSkip(gap, rest);
  }

  lemma WordsCons(word: Bytes, rest: Bytes)
    requires IsWord(word)
    ensures Words(word + [' '] + rest) == [word] + Words(rest)
  {
    WordsSpaced(word, [' '], rest);
  }

  lemma {:induction false} WordsJoin(words: seq<Bytes>)
    requires forall word | word in words :: IsWord(word)
    ensures Words(Join(words, ' ')) == words
  {
    if |words| == 1 {
      assert words[0] in words;
      WordsOne(words[0]);
    } else if |words| > 1 {
      assert words[0] in words;
      assert forall word | word in words[1..] :: word in words;
      WordsJoin(words[1..]);
      WordsCons(words[0], Join(words[1..], ' '));
    }
  }

  method ReadWords(line: Bytes) returns (words: seq<Bytes>)
    ensures words == Words(line)
  {
    words := [];
    var i := 0;
    while i < |line|
      invariant 0 <= i <= |line|
      invariant words + Words(line[i..]) == Words(line)
    {
      if IsSpace(line[i]) {
        assert line[i..][1..] == line[i + 1..];
        i := i + 1;
      } else {
        var n := WordLength(line[i..]);
        assert line[i..][n..] == line[i + n..];
        Regroup(words, [line[i..][..n]], Words(line[i..][n..]));
        words := words + [line[i..][..n]];
        i := i + n;
      }
    }
  }
}
