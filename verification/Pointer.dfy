/** Pointer files: the text that stands in for a large file's content. */
module Pointer {
  import opened Prelude
  import opened Paths

  const U64_LIMIT: nat := 0x1_0000_0000_0000_0000
  const LF: byte := 10
  const CR: byte := 13

  datatype PointerFile = PointerFile(sha256: Bytes, size: nat, original: Bytes)

  /** Backend settings that decide what is stored: the ignore rules, the size above
      which content is replaced by a pointer (0 turns that off), and the hash. */
  datatype Settings = Settings(ignored: string -> bool, threshold: nat, sha256: Bytes -> Bytes)

  // ----- text as bytes --------------------------------------------------------------

  function Ascii(s: string): Bytes
    requires forall i | 0 <= i < |s| :: s[i] as int < 128
  {
    seq(|s|, i requires 0 <= i < |s| => s[i] as byte)
  }

  const MAGIC: Bytes := Ascii("gitoxide-fs-pointer v1")
  const SHA_TAG: Bytes := Ascii("sha256:")
  const SIZE_TAG: Bytes := Ascii("size:")
  const ORIGINAL_TAG: Bytes := Ascii("original:")

  predicate Between(b: byte, lo: byte, hi: byte)
  {
    lo <= b <= hi
  }

  /** Length of the UTF-8 sequence at the front, 0 if there is none (RFC 3629, section 4). */
  function CharLength(bs: Bytes): (n: nat)
    ensures n <= |bs|
  {
    if bs == [] then 0
    else if bs[0] < 0x80 then 1
    else if |bs| >= 2 && Between(bs[0], 0xC2, 0xDF) && Between(bs[1], 0x80, 0xBF) then 2
    else if |bs| >= 3 && Between(bs[0], 0xE0, 0xEF) && Between(bs[2], 0x80, 0xBF)
            && Between(bs[1], if bs[0] == 0xE0 then 0xA0 else 0x80, if bs[0] == 0xED then 0x9F else 0xBF) then 3
    else if |bs| >= 4 && Between(bs[0], 0xF0, 0xF4) && Between(bs[2], 0x80, 0xBF) && Between(bs[3], 0x80, 0xBF)
            && Between(bs[1], if bs[0] == 0xF0 then 0x90 else 0x80, if bs[0] == 0xF4 then 0x8F else 0xBF) then 4
    else 0
  }

  /** `std::str::from_utf8(bs).is_ok()`. */
  predicate IsUtf8(bs: Bytes)
  {
    bs == [] || (CharLength(bs) > 0 && IsUtf8(bs[CharLength(bs)..]))
  }

  /** The UTF-8 encoding of one character. */
  function EncodeChar(c: char): Bytes
  {
    var n := c as int;
    if n < 0x80 then [n as byte]
    else if n < 0x800 then [(0xC0 + n / 0x40) as byte, (0x80 + n % 0x40) as byte]
    else if n < 0x10000 then
      [(0xE0 + n / 0x1000) as byte, (0x80 + n / 0x40 % 0x40) as byte, (0x80 + n % 0x40) as byte]
    else
      [(0xF0 + n / 0x40000) as byte, (0x80 + n / 0x1000 % 0x40) as byte,
       (0x80 + n / 0x40 % 0x40) as byte, (0x80 + n % 0x40) as byte]
  }

  function Utf8(s: string): Bytes
  {
    if s == "" then [] else EncodeChar(s[0]) + Utf8(s[1..])
  }

  function Decimal(n: nat): Bytes
  {
    if n < 10 then [(48 + n) as byte] else Decimal(n / 10) + [(48 + n % 10) as byte]
  }

  /** The value of a run of digits; `None` on anything else and on overflow. */
  function Digits(bs: Bytes): (r: Option<nat>)
    ensures r.Some? ==> r.value < U64_LIMIT
  {
    if bs == [] then Some(0)
    else
      var last := bs[|bs| - 1];
      match Digits(bs[..|bs| - 1])
      case None => None
      case Some(v) =>
        if 48 <= last <= 57 && 10 * v + (last as int - 48) < U64_LIMIT
        then Some(10 * v + (last as int - 48)) else None
  }

  /** `str::parse::<u64>`: an optional '+', then at least one digit. */
  function ParseU64(bs: Bytes): Option<nat>
  {
    var digits := if bs != [] && bs[0] == 43 then bs[1..] else bs;
    if digits == [] then None else Digits(digits)
  }

  // ----- lines ----------------------------------------------------------------------

  /** Length of the text in front of the first line feed. */
  function LineLength(text: Bytes): (n: nat)
    ensures n <= |text|
  {
    if text == [] || text[0] == LF then 0 else 1 + LineLength(text[1..])
  }

  function StripCr(line: Bytes): Bytes
  {
    if line != [] && line[|line| - 1] == CR then line[..|line| - 1] else line
  }

  /** `lines.next()` with the text that remains. A line loses its line feed and a
      carriage return in front of it; the last line need not end in a line feed. */
  function NextLine(text: Bytes): Option<(Bytes, Bytes)>
  {
    var n := LineLength(text);
    if text == [] then None
    else if n == |text| then Some((text, []))
    else Some((StripCr(text[..n]), text[n + 1..]))
  }

  function StripTag(line: Bytes, tag: Bytes): Option<Bytes>
  {
    if tag <= line then Some(line[|tag|..]) else None
  }

  /** The next line without its tag. */
  function Field(text: Bytes, tag: Bytes): Option<(Bytes, Bytes)>
  {
    match NextLine(text)
    case None => None
    case Some((line, rest)) =>
      match StripTag(line, tag)
      case None => None
      case Some(value) => Some((value, rest))
  }

  predicate IsHexDigit(b: byte)
  {
    48 <= b <= 57 || 65 <= b <= 70 || 97 <= b <= 102
  }

  predicate IsHash(h: Bytes)
  {
    |h| == 64 && forall i | 0 <= i < |h| :: IsHexDigit(h[i])
  }

  // ----- printing and parsing -------------------------------------------------------

  /** One tagged line, with its line feed. */
  function Line(tag: Bytes, value: Bytes): Bytes
  {
    tag + value + [LF]
  }

  function ToBytes(p: PointerFile): Bytes
  {
    Line(MAGIC, [])
    + (Line(SHA_TAG, p.sha256)
       + (Line(SIZE_TAG, Decimal(p.size))
          + Line(ORIGINAL_TAG, p.original)))
  }

  /** The three tagged lines after the magic one. */
  function ParseFields(text: Bytes): Option<PointerFile>
  {
    match Field(text, SHA_TAG)
    case None => None
    case Some((sha256, rest1)) =>
      match Field(rest1, SIZE_TAG)
      case None => None
      case Some((size, rest2)) =>
        match ParseU64(size)
        case None => None
        case Some(n) =>
          match Field(rest2, ORIGINAL_TAG)
          case None => None
          case Some((original, _)) =>
            if IsHash(sha256) then Some(PointerFile(sha256, n, original)) else None
  }

  function ParsePointer(content: Bytes): Option<PointerFile>
  {
    if !IsUtf8(content) then None
    else
      match NextLine(content)
      case None => None
      case Some((magic, rest)) => if magic != MAGIC then None else ParseFields(rest)
  }

  /** What `store_bytes` returns: content lengths are cast to `u64`. */
  function PointerTo(s: Settings, name: string, content: Bytes): PointerFile
  {
    PointerFile(s.sha256(content), |content| % U64_LIMIT, Utf8(name))
  }

  /** Whether `maybe_pointerize_content` moves this content to the blob store. */
  predicate TooLarge(s: Settings, content: Bytes)
  {
    ParsePointer(content).None? && s.threshold != 0 && |content| > s.threshold
  }

  /** What `maybe_pointerize_content` leaves in the file. */
  function Stored(s: Settings, path: string, content: Bytes): Bytes
  {
    if TooLarge(s, content) then ToBytes(PointerTo(s, FileName(path), content)) else content
  }

  /** The hash function returns 64 hex digits. */
  ghost predicate ValidSettings(s: Settings)
  {
    forall content :: IsHash(s.sha256(content))
  }

  // ----- UTF-8 ------------------------------------------------------------------------

  lemma CharLengthAppend(a: Bytes, b: Bytes)
    requires CharLength(a) > 0
    ensures CharLength(a + b) == CharLength(a)
  {
    assert forall i | 0 <= i < |a| :: (a + b)[i] == a[i];
  }

  lemma Utf8Unfold(bs: Bytes, n: nat, rest: Bytes)
    requires bs != [] && CharLength(bs) == n > 0 && rest == bs[n..]
    ensures IsUtf8(bs) <==> IsUtf8(rest)
  {
  }

  lemma DropAppend(a: Bytes, b: Bytes, n: nat)
    requires n <= |a|
    ensures (a + b)[n..] == a[n..] + b
  {
  }

  lemma {:induction false} Utf8Append(a: Bytes, b: Bytes)
    requires IsUtf8(a) && IsUtf8(b)
    ensures IsUtf8(a + b)
  {
    if a == [] {
      assert a + b == b;
    } else {
      var n := CharLength(a);
      Utf8Unfold(a, n, a[n..]);
      Utf8Append(a[n..], b);
      CharLengthAppend(a, b);
      DropAppend(a, b, n);
      Utf8Unfold(a + b, n, a[n..] + b);
    }
  }

  lemma {:induction false} AsciiIsUtf8(bs: Bytes)
    requires forall b | b in bs :: b < 0x80
    ensures IsUtf8(bs)
  {
    if bs != [] {
      assert bs[0] in bs && forall b | b in bs[1..] :: b in bs;
      AsciiIsUtf8(bs[1..]);
    }
  }

  lemma EncodeCharIsUtf8(c: char)
    ensures IsUtf8(EncodeChar(c))
  {
    var e := EncodeChar(c);
    assert CharLength(e) == |e|;
    assert e[|e|..] == [];
  }

  lemma {:induction false} Utf8IsUtf8(s: string)
    ensures IsUtf8(Utf8(s))
  {
    if s != "" {
      Utf8IsUtf8(s[1..]);
      EncodeCharIsUtf8(s[0]);
      Utf8Append(EncodeChar(s[0]), Utf8(s[1..]));
    }
  }

  // ----- decimals ---------------------------------------------------------------------

  lemma {:induction false} DecimalDigits(n: nat)
    requires n < U64_LIMIT
    ensures Decimal(n) != [] && Digits(Decimal(n)) == Some(n)
    ensures forall i | 0 <= i < |Decimal(n)| :: 48 <= Decimal(n)[i] <= 57
  {
    if n < 10 {
      assert Decimal(n)[..0] == [];
    } else {
      DecimalDigits(n / 10);
      var d := Decimal(n);
      assert d[..|d| - 1] == Decimal(n / 10);
    }
  }

  // ----- the round trip -----------------------------------------------------------------

  lemma {:induction false} LineLengthOf(line: Bytes, rest: Bytes)
    requires LF !in line
    ensures LineLength(line + [LF] + rest) == |line|
  {
    if line == [] {
      assert (line + [LF] + rest)[0] == LF;
    } else {
      assert line[0] in line;
      assert (line + [LF] + rest)[1..] == line[1..] + [LF] + rest;
      LineLengthOf(line[1..], rest);
    }
  }

  lemma NextLineOf(line: Bytes, rest: Bytes)
    requires LF !in line
    ensures NextLine(line + [LF] + rest) == Some((StripCr(line), rest))
  {
    LineLengthOf(line, rest);
    var text := line + [LF] + rest;
    assert text[..|line|] == line;
    assert text[|line| + 1..] == rest;
  }

  lemma FieldOf(tag: Bytes, value: Bytes, rest: Bytes)
    requires NoBreaks(tag) && LF !in value && (value == [] || value[|value| - 1] != CR)
    ensures Field(Line(tag, value) + rest, tag) == Some((value, rest))
  {
    assert tag != [] ==> tag[|tag| - 1] in tag;
    NextLineOf(tag + value, rest);
    assert (tag + value)[|tag|..] == value;
  }

  predicate NoBreaks(bs: Bytes)
  {
    forall b | b in bs :: b != LF && b != CR && b < 0x80
  }

  lemma AsciiPlain(s: string)
    requires forall i | 0 <= i < |s| :: s[i] as int < 128 && s[i] != '\n' && s[i] != '\r'
    ensures NoBreaks(Ascii(s))
  {
    forall b | b in Ascii(s) ensures b != LF && b != CR && b < 0x80 {
      var i :| 0 <= i < |s| && b == Ascii(s)[i];
      assert b as int == s[i] as int;
    }
  }

  lemma TagsHaveNoBreaks()
    ensures NoBreaks(MAGIC) && NoBreaks(SHA_TAG) && NoBreaks(SIZE_TAG) && NoBreaks(ORIGINAL_TAG)
  {
    AsciiPlain("gitoxide-fs-pointer v1");
    AsciiPlain("sha256:");
    AsciiPlain("size:");
    AsciiPlain("original:");
  }

  lemma MagicLine(rest: Bytes)
    ensures NextLine(Line(MAGIC, []) + rest) == Some((MAGIC, rest))
  {
    TagsHaveNoBreaks();
    assert MAGIC[|MAGIC| - 1] in MAGIC;
    assert MAGIC + [] == MAGIC;
    NextLineOf(MAGIC, rest);
  }

  /** The original name as it is read back: its first line. */
  function NameRead(original: Bytes): Bytes
  {
    StripCr(original[..LineLength(original)])
  }

  ghost predicate Printable(p: PointerFile)
  {
    IsHash(p.sha256) && p.size < U64_LIMIT && IsUtf8(p.original)
  }

  lemma {:induction false} LineLengthIn(text: Bytes, rest: Bytes)
    ensures LineLength(text + [LF] + rest) == LineLength(text)
    ensures LineLength(text) == |text| <==> LF !in text
  {
    if text == [] {
      assert (text + [LF] + rest)[0] == LF;
    } else if text[0] == LF {
      assert LF in text;
    } else {
      assert (text + [LF] + rest)[1..] == text[1..] + [LF] + rest;
      LineLengthIn(text[1..], rest);
      assert text == [text[0]] + text[1..];
    }
  }

  lemma StripCrTagged(tag: Bytes, tail: Bytes)
    requires tag != [] && tag[|tag| - 1] != CR
    ensures StripCr(tag + tail) == tag + StripCr(tail)
  {
    if tail != [] && tail[|tail| - 1] == CR {
      assert (tag + tail)[..|tag + tail| - 1] == tag + tail[..|tail| - 1];
    } else if tail == [] {
      assert tag + tail == tag;
    }
  }

  lemma StripTagged(tag: Bytes, tail: Bytes)
    ensures StripTag(tag + tail, tag) == Some(tail)
  {
  }

  lemma OriginalField(original: Bytes)
    ensures Field(Line(ORIGINAL_TAG, original), ORIGINAL_TAG).Some?
    ensures Field(Line(ORIGINAL_TAG, original), ORIGINAL_TAG).value.0 == NameRead(original)
  {
    TagsHaveNoBreaks();
    var text := Line(ORIGINAL_TAG, original);
    var n := LineLength(original);
    LineLengthIn(original, []);
    assert original + [LF] + [] == original + [LF];
    LineLengthPast(ORIGINAL_TAG, original + [LF]);
    assert text == ORIGINAL_TAG + (original + [LF]);
    assert text[..|ORIGINAL_TAG| + n] == ORIGINAL_TAG + original[..n];
    assert |ORIGINAL_TAG| == 9 && ORIGINAL_TAG[8] as int == 58;
    StripCrTagged(ORIGINAL_TAG, original[..n]);
    StripTagged(ORIGINAL_TAG, StripCr(original[..n]));
  }

  lemma {:induction false} LineLengthPast(line: Bytes, rest: Bytes)
    requires LF !in line
    ensures LineLength(line + rest) == |line| + LineLength(rest)
  {
    if line == [] {
      assert line + rest == rest;
    } else {
      assert line[0] in line;
      assert (line + rest)[1..] == line[1..] + rest;
      LineLengthPast(line[1..], rest);
    }
  }

  lemma LineIsUtf8(tag: Bytes, value: Bytes)
    requires IsUtf8(value) && NoBreaks(tag)
    ensures IsUtf8(Line(tag, value))
  {
    AsciiIsUtf8(tag);
    AsciiIsUtf8([LF]);
    Utf8Append(tag, value);
    Utf8Append(tag + value, [LF]);
  }

  lemma PrintedIsUtf8(p: PointerFile)
    requires Printable(p)
    ensures IsUtf8(ToBytes(p))
  {
    TagsHaveNoBreaks();
    DecimalDigits(p.size);
    assert forall b | b in p.sha256 :: IsHexDigit(b);
    AsciiIsUtf8(p.sha256);
    AsciiIsUtf8(Decimal(p.size));
    LineIsUtf8(MAGIC, []);
    LineIsUtf8(SHA_TAG, p.sha256);
    LineIsUtf8(SIZE_TAG, Decimal(p.size));
    LineIsUtf8(ORIGINAL_TAG, p.original);
    var tail := Line(SIZE_TAG, Decimal(p.size)) + Line(ORIGINAL_TAG, p.original);
    Utf8Append(Line(SIZE_TAG, Decimal(p.size)), Line(ORIGINAL_TAG, p.original));
    Utf8Append(Line(SHA_TAG, p.sha256), tail);
    Utf8Append(Line(MAGIC, []), Line(SHA_TAG, p.sha256) + tail);
  }

  lemma FieldsRead(text: Bytes, sha256: Bytes, rest1: Bytes, size: Bytes, rest2: Bytes, n: nat, original: Bytes, rest3: Bytes)
    requires Field(text, SHA_TAG) == Some((sha256, rest1)) && Field(rest1, SIZE_TAG) == Some((size, rest2))
    requires ParseU64(size) == Some(n) && Field(rest2, ORIGINAL_TAG) == Some((original, rest3)) && IsHash(sha256)
    ensures ParseFields(text) == Some(PointerFile(sha256, n, original))
  {
  }

  lemma NumberRead(n: nat)
    requires n < U64_LIMIT
    ensures ParseU64(Decimal(n)) == Some(n) && NoBreaks(Decimal(n))
  {
    DecimalDigits(n);
  }

  lemma HashPlain(hash: Bytes)
    requires IsHash(hash)
    ensures NoBreaks(hash)
  {
    assert forall b | b in hash :: IsHexDigit(b);
  }

  lemma FieldsPrinted(p: PointerFile)
    requires Printable(p)
    ensures ParseFields(Line(SHA_TAG, p.sha256) + (Line(SIZE_TAG, Decimal(p.size)) + Line(ORIGINAL_TAG, p.original)))
            == Some(PointerFile(p.sha256, p.size, NameRead(p.original)))
  {
    TagsHaveNoBreaks();
    NumberRead(p.size);
    HashPlain(p.sha256);
    var rest2 := Line(ORIGINAL_TAG, p.original);
    var rest1 := Line(SIZE_TAG, Decimal(p.size)) + rest2;
    FieldOf(SHA_TAG, p.sha256, rest1);
    FieldOf(SIZE_TAG, Decimal(p.size), rest2);
    OriginalField(p.original);
    FieldsRead(Line(SHA_TAG, p.sha256) + rest1, p.sha256, rest1, Decimal(p.size), rest2, p.size, NameRead(p.original),
               Field(rest2, ORIGINAL_TAG).value.1);
  }

  /** Hash and size always survive; of the name, its first line does. */
  lemma ParsePrinted(p: PointerFile)
    requires Printable(p)
    ensures ParsePointer(ToBytes(p)) == Some(PointerFile(p.sha256, p.size, NameRead(p.original)))
  {
    PrintedIsUtf8(p);
    MagicLine(Line(SHA_TAG, p.sha256) + (Line(SIZE_TAG, Decimal(p.size)) + Line(ORIGINAL_TAG, p.original)));
    FieldsPrinted(p);
  }

  /** Parsing gives back the very pointer that was printed exactly when its name is
      one line and does not end in a carriage return. */
  lemma RoundTripIff(p: PointerFile)
    requires Printable(p)
    ensures ParsePointer(ToBytes(p)) == Some(p) <==>
            LF !in p.original && (p.original == [] || p.original[|p.original| - 1] != CR)
  {
    ParsePrinted(p);
    NameReadIff(p.original);
  }

  lemma NameReadIff(original: Bytes)
    ensures NameRead(original) == original <==> LF !in original && (original == [] || original[|original| - 1] != CR)
  {
    LineLengthIn(original, []);
    assert original[..|original|] == original;
  }

  /** A file that was replaced by a pointer names the hash and size of its content. */
  lemma StoredPointer(s: Settings, path: string, content: Bytes)
    requires ValidSettings(s) && TooLarge(s, content)
    ensures ParsePointer(Stored(s, path, content)).Some?
    ensures ParsePointer(Stored(s, path, content)).value.sha256 == s.sha256(content)
    ensures ParsePointer(Stored(s, path, content)).value.size == |content| % U64_LIMIT
  {
    Utf8IsUtf8(FileName(path));
    ParsePrinted(PointerTo(s, FileName(path), content));
  }

  /** Pointerising what is already stored changes nothing, under any file name. */
  lemma StoredTwice(s: Settings, path: string, path': string, content: Bytes)
    requires ValidSettings(s)
    ensures Stored(s, path', Stored(s, path, content)) == Stored(s, path, content)
    ensures !TooLarge(s, Stored(s, path, content))
  {
    if TooLarge(s, content) {
      StoredPointer(s, path, content);
    }
  }

  /** What stays as it is, and what a pointer stands in for: contents above the threshold,
      if there is one, that do not look like pointers already. Hash, size and the first
      line of the file's name are in it. */
  lemma StoredIff(s: Settings, path: string, content: Bytes)
    requires ValidSettings(s)
    ensures if s.threshold == 0 || |content| <= s.threshold || ParsePointer(content).Some?
            then Stored(s, path, content) == content
            else ParsePointer(Stored(s, path, content)) ==
                 Some(PointerFile(s.sha256(content), |content| % U64_LIMIT, NameRead(Utf8(FileName(path)))))
  {
    if TooLarge(s, content) {
      Utf8IsUtf8(FileName(path));
      ParsePrinted(PointerTo(s, FileName(path), content));
    }
  }

  // ----- the text itself ------------------------------------------------------------------------------------

  /** A pointer file of four lines: the magic line, the hash, the size in decimal and the name. */
  lemma PrintedText(p: PointerFile)
    ensures ToBytes(p) ==
            (Ascii("gitoxide-fs-pointer v1") + [] + [10])
            + ((Ascii("sha256:") + p.sha256 + [10])
               + ((Ascii("size:") + Decimal(p.size) + [10])
                  + (Ascii("original:") + p.original + [10])))
  {
  }

  /** The number that a row of digits stands for, and how it is written: without a zero in
      front. */
  function DigitsValue(digits: Bytes): int
  {
    if digits == [] then 0 else 10 * DigitsValue(digits[..|digits| - 1]) + (digits[|digits| - 1] as int - 48)
  }

  lemma {:induction false} DecimalIsDecimal(n: nat)
    ensures DigitsValue(Decimal(n)) == n && Decimal(n) != []
    ensures forall i | 0 <= i < |Decimal(n)| :: 48 <= Decimal(n)[i] <= 57
    ensures n > 0 ==> Decimal(n)[0] != 48
  {
    var d := Decimal(n);
    if n < 10 {
      assert d[..0] == [];
      assert DigitsValue([]) == 0;
    } else {
      DecimalIsDecimal(n / 10);
      assert d[..|d| - 1] == Decimal(n / 10);
    }
  }
}
