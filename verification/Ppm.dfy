/** Reading a binary PPM file: the token scanner, the P6 header and the pixel packing.

A file is a sequence of bytes. The reader is a class because the scanner advances a shared position. */
module Ppm {
  import opened Helpers

  datatype Error = UnexpectedEnd | BadMagic | BadNumber | BadMaxval | Truncated | BadSize

  datatype Result<+T> = Ok(value: T) | Err(error: Error)

  datatype Image = Image(width: int, height: int, pixels: seq<bv32>)

  const HASH: bv8 := 35
  const NEWLINE: bv8 := 10
  const SPACE: bv8 := 32

  // ---- Scanning, as functions of the position ----

  function SkipBlank(data: seq<bv8>, p: nat): (q: nat)
    requires p <= |data|
    ensures p <= q <= |data|
    decreases |data| - p
  {
    if p < |data| && data[p] <= SPACE then SkipBlank(data, p + 1) else p
  }

  function SkipComment(data: seq<bv8>, p: nat): (q: nat)
    requires p <= |data|
    ensures p <= q <= |data| && (p < |data| && data[p] != NEWLINE ==> p < q)
    decreases |data| - p
  {
    if p < |data| && data[p] != NEWLINE then SkipComment(data, p + 1) else p
  }

  /** The start of the next token, past white space and comments. */
  function TokenStart(data: seq<bv8>, p: nat): (q: nat)
    requires p <= |data|
    ensures p <= q <= |data|
    decreases |data| - p
  {
    var q := SkipBlank(data, p);
    if q < |data| && data[q] == HASH then TokenStart(data, SkipComment(data, q)) else q
  }

  function TokenEnd(data: seq<bv8>, p: nat): (q: nat)
    requires p <= |data|
    ensures p <= q <= |data|
    decreases |data| - p
  {
    if p < |data| && data[p] > SPACE then TokenEnd(data, p + 1) else p
  }

  datatype Token = Token(text: seq<bv8>, next: nat)

  function NextToken(data: seq<bv8>, p: nat): (r: Result<Token>)
    requires p <= |data|
    ensures r.Ok? ==> p <= r.value.next <= |data|
  {
    var start := TokenStart(data, p);
    if start >= |data| then Err(UnexpectedEnd)
    else Ok(Token(data[start..TokenEnd(data, start)], TokenEnd(data, start)))
  }

  // ---- Numbers ----

  predicate IsDigit(b: bv8) { 48 <= b <= 57 }

  function DigitValue(b: bv8): nat {
    if b == 49 then 1 else if b == 50 then 2 else if b == 51 then 3 else if b == 52 then 4 else if b == 53 then 5
    else if b == 54 then 6 else if b == 55 then 7 else if b == 56 then 8 else if b == 57 then 9 else 0
  }

  function Value(digits: seq<bv8>): nat {
    if digits == [] then 0 else 10 * Value(digits[..|digits| - 1]) + DigitValue(digits[|digits| - 1])
  }

  predicate IsDecimal(text: seq<bv8>) { text != [] && forall i | 0 <= i < |text| :: IsDigit(text[i]) }

  /** The shell's conversion to a 32-bit integer. Of decimal numerals it accepts those in range; `other` is what it
      makes of any other text. */
  function ToInt32(text: seq<bv8>, other: seq<bv8> -> Option<int>): Option<int> {
    if IsDecimal(text) then (if Value(text) < 0x8000_0000 then Some(Value(text)) else None) else other(text)
  }

  function Digit(d: nat): bv8
    requires d < 10
  {
    [48, 49, 50, 51, 52, 53, 54, 55, 56, 57][d]
  }

  /** The decimal numeral of a number. */
  function Decimal(n: nat): seq<bv8> { if n < 10 then [Digit(n)] else Decimal(n / 10) + [Digit(n % 10)] }

  lemma DigitRoundTrip(d: nat)
    requires d < 10
    ensures IsDigit(Digit(d)) && DigitValue(Digit(d)) == d
  {
  }

  lemma AppendDigit(text: seq<bv8>, b: bv8)
    requires IsDigit(b) && (text == [] || IsDecimal(text))
    ensures IsDecimal(text + [b]) && Value(text + [b]) == 10 * Value(text) + DigitValue(b)
  {
  }

  lemma {:induction false} DecimalRoundTrip(n: nat)
    ensures IsDecimal(Decimal(n)) && Value(Decimal(n)) == n
  {
    hide IsDecimal, Digit, DigitValue;
    DigitRoundTrip(n % 10);
    if n < 10 {
      AppendDigit([], Digit(n));
      assert [] + [Digit(n)] == Decimal(n);
    } else {
      DecimalRoundTrip(n / 10);
      AppendDigit(Decimal(n / 10), Digit(n % 10));
    }
  }

  /** A printed number is a token, and converts to the number. */
  lemma DecimalIsNumeral(n: nat, other: seq<bv8> -> Option<int>)
    requires n < 0x8000_0000
    ensures IsText(Decimal(n)) && ToInt32(Decimal(n), other) == Some(n)
  {
    DecimalRoundTrip(n);
  }

  /** A number that needs more than 31 bits is refused. */
  lemma LargeNumberIsRefused(n: nat, other: seq<bv8> -> Option<int>)
    requires n >= 0x8000_0000
    ensures ToInt32(Decimal(n), other) == None
  {
    DecimalRoundTrip(n);
  }

  /** What a token can be: no white space, and not the start of a comment. */
  ghost predicate IsText(text: seq<bv8>) {
    text != [] && text[0] != HASH && forall i | 0 <= i < |text| :: text[i] > SPACE
  }

  // ---- The file ----

  /** The magic number is compared without regard to case. */
  predicate IsP6(text: seq<bv8>) { |text| == 2 && (text[0] == 80 || text[0] == 112) && text[1] == 54 }

  function PackArgb(r: bv8, g: bv8, b: bv8): bv32 {
    0xff00_0000 | ((r as bv32) << 16) | ((g as bv32) << 8) | (b as bv32)
  }

  function PackAll(data: seq<bv8>, at: nat, count: nat): (pixels: seq<bv32>)
    requires at + 3 * count <= |data|
    ensures |pixels| == count
  {
    seq(count, i requires 0 <= i < count => PackArgb(data[at + i * 3], data[at + i * 3 + 1], data[at + i * 3 + 2]))
  }

  function NextNumber(data: seq<bv8>, p: nat, other: seq<bv8> -> Option<int>): (r: Result<(int, nat)>)
    requires p <= |data|
    ensures r.Ok? ==> p <= r.value.1 <= |data|
  {
    var token := NextToken(data, p);
    if token.Err? then Err(token.error)
    else
      var n := ToInt32(token.value.text, other);
      if n.None? then Err(BadNumber) else Ok((n.value, token.value.next))
  }

  datatype Header = Header(width: int, height: int, next: nat)

  /** The three numerals behind the magic number. */
  function ParseHeader(data: seq<bv8>, p: nat, other: seq<bv8> -> Option<int>): Result<Header>
    requires p <= |data|
  {
    var width := NextNumber(data, p, other);
    if width.Err? then Err(width.error)
    else
      var height := NextNumber(data, width.value.1, other);
      if height.Err? then Err(height.error)
      else
        var maxval := NextNumber(data, height.value.1, other);
        if maxval.Err? then Err(maxval.error)
        else if maxval.value.0 != 255 then Err(BadMaxval)
        else Ok(Header(width.value.0, height.value.0, maxval.value.1))
  }

  /** What reading a whole file yields. One byte separates the header from the pixel data. */
  function Parse(data: seq<bv8>, other: seq<bv8> -> Option<int>): Result<Image> {
    var magic := NextToken(data, 0);
    if magic.Err? then Err(magic.error)
    else if !IsP6(magic.value.text) then Err(BadMagic)
    else
      var header := ParseHeader(data, magic.value.next, other);
      if header.Err? then Err(header.error)
      else ParsePixels(data, header.value.next + 1, header.value.width, header.value.height)
  }

  function ParsePixels(data: seq<bv8>, at: nat, width: int, height: int): Result<Image> {
    var pixelCount := width * height;
    if |data| < at + pixelCount * 3 then Err(Truncated)
    else if pixelCount < 0 then Err(BadSize)
    else Ok(Image(width, height, PackAll(data, at, pixelCount)))
  }

  class Reader {
    const data: seq<bv8>
    var pos: nat

    constructor (bytes: seq<bv8>)
      ensures data == bytes && pos == 0
    {
      data, pos := bytes, 0;
    }

    /** Reads the next token; the position ends up behind it. */
    method ReadToken() returns (r: Result<seq<bv8>>)
      requires pos <= |data|
      modifies this
      ensures var token := NextToken(data, old(pos));
              if token.Ok? then r == Ok(token.value.text) && pos == token.value.next else r == Err(token.error)
      ensures pos <= |data|
    {
      while true
        invariant pos <= |data| && TokenStart(data, pos) == TokenStart(data, old(pos))
        decreases |data| - pos
      {
        ghost var blank := pos;
        while pos < |data| && data[pos] <= SPACE
          invariant blank <= pos <= |data| && SkipBlank(data, pos) == SkipBlank(data, blank)
        {
          pos := pos + 1;
        }
        if pos < |data| && data[pos] == HASH {
          ghost var comment := pos;
          while pos < |data| && data[pos] != NEWLINE
            invariant comment <= pos <= |data| && SkipComment(data, pos) == SkipComment(data, comment)
          {
            pos := pos + 1;
          }
          continue;
        }
        break;
      }
      if pos >= |data| {
        return Err(UnexpectedEnd);
      }
      var start := pos;
      while pos < |data| && data[pos] > SPACE
        invariant start <= pos <= |data| && TokenEnd(data, pos) == TokenEnd(data, start)
      {
        pos := pos + 1;
      }
      r := Ok(data[start..pos]);
    }

    /** Reads a token and converts it. */
    method ReadNumber(other: seq<bv8> -> Option<int>) returns (r: Result<int>)
      requires pos <= |data|
      modifies this
      ensures var number := NextNumber(data, old(pos), other);
              if number.Ok? then r == Ok(number.value.0) && pos == number.value.1 else r == Err(number.error)
      ensures pos <= |data|
    {
      var token := ReadToken();
      if token.Err? {
        return Err(token.error);
      }
      var n := ToInt32(token.value, other);
      r := if n.None? then Err(BadNumber) else Ok(n.value);
    }

    /** Reads the three numerals behind the magic number. */
    method ReadHeader(other: seq<bv8> -> Option<int>) returns (r: Result<(int, int)>)
      requires pos <= |data|
      modifies this
      ensures var header := ParseHeader(data, old(pos), other);
              if header.Ok? then r == Ok((header.value.width, header.value.height)) && pos == header.value.next
              else r == Err(header.error)
    {
      var width := ReadNumber(other);
      if width.Err? {
        return Err(width.error);
      }
      var height := ReadNumber(other);
      if height.Err? {
        return Err(height.error);
      }
      var maxval := ReadNumber(other);
      if maxval.Err? {
        return Err(maxval.error);
      }
      r := if maxval.value != 255 then Err(BadMaxval) else Ok((width.value, height.value));
    }

    /** Reads the whole file, from the start. */
    method Read(other: seq<bv8> -> Option<int>) returns (r: Result<Image>)
      modifies this
      ensures r == Parse(data, other)
    {
      pos := 0;
      var magic := ReadToken();
      if magic.Err? {
        return Err(magic.error);
      }
      if !IsP6(magic.value) {
        return Err(BadMagic);
      }
      var header := ReadHeader(other);
      if header.Err? {
        return Err(header.error);
      }
      pos := pos + 1;
      r := ReadPixels(header.value.0, header.value.1);
    }

    /** Packs the pixel data behind the header. */
    method ReadPixels(width: int, height: int) returns (r: Result<Image>)
      ensures r == ParsePixels(data, pos, width, height)
    {
      var pixelCount := width * height;
      if |data| < pos + pixelCount * 3 {
        return Err(Truncated);
      }
      if pixelCount < 0 {
        return Err(BadSize);
      }
      var pixels := new bv32[pixelCount](_ => 0);
      for i := 0 to pixelCount
        invariant forall k | 0 <= k < i :: pixels[k] == PackAll(data, pos, pixelCount)[k]
      {
        var o := pos + i * 3;
        pixels[i] := PackArgb(data[o], data[o + 1], data[o + 2]);
      }
      assert pixels[..] == PackAll(data, pos, pixelCount);
      r := Ok(Image(width, height, pixels[..]));
    }
  }

  // ---- Printed headers ----

  /** White space and comments; a comment runs to the end of its line. */
  datatype Item = Blank(byte: bv8) | Comment(text: seq<bv8>) {
    predicate Valid() { if Blank? then byte <= SPACE else NEWLINE !in text }

    function Print(): (s: seq<bv8>)
      ensures s != []
    {
      if Blank? then [byte] else [HASH] + text + [NEWLINE]
    }
  }

  function PrintGap(gap: seq<Item>): seq<bv8> { if gap == [] then [] else gap[0].Print() + PrintGap(gap[1..]) }

  predicate ValidGap(gap: seq<Item>) { forall i | 0 <= i < |gap| :: gap[i].Valid() }

  /** A gap that can follow a token. */
  predicate ValidSeparator(gap: seq<Item>) { ValidGap(gap) && gap != [] && gap[0].Blank? }

  /** A P6 file: leading gap, magic number, three separated numerals, one white space byte, pixel data. A numeral is any
      token that converts. */
  datatype File = File(lead: seq<Item>, magic: seq<bv8>, gap1: seq<Item>, width: seq<bv8>, gap2: seq<Item>,
                       height: seq<bv8>, gap3: seq<Item>, maxval: seq<bv8>, last: bv8, body: seq<bv8>) {
    ghost predicate Valid(other: seq<bv8> -> Option<int>) {
      && ValidGap(lead) && ValidSeparator(gap1) && ValidSeparator(gap2) && ValidSeparator(gap3) && last <= SPACE
      && IsP6(magic) && IsText(width) && IsText(height) && IsText(maxval)
      && ToInt32(width, other).Some? && ToInt32(height, other).Some? && ToInt32(maxval, other) == Some(255)
    }

    /** The picture a file stands for. */
    ghost function Picture(other: seq<bv8> -> Option<int>): Result<Image>
      requires Valid(other)
    {
      Contents(ToInt32(width, other).value, ToInt32(height, other).value, body)
    }

    function Print(): seq<bv8> { PrintGap(lead) + (magic + Numbers()) }

    function Numbers(): seq<bv8> {
      PrintGap(gap1) + (width + (PrintGap(gap2) + (height + (PrintGap(gap3) + (maxval + ([last] + body))))))
    }
  }

  /** The picture these dimensions and this pixel data stand for: too little data is no picture, surplus data is
      ignored, and there is no negative number of pixels. */
  function Contents(width: int, height: int, body: seq<bv8>): Result<Image> {
    var count := width * height;
    if count < 0 then Err(BadSize)
    else if |body| < count * 3 then Err(Truncated)
    else Ok(Image(width, height, PackAll(body, 0, count)))
  }

  /** From position p on, the file consists of these bytes. */
  ghost predicate Rest(data: seq<bv8>, p: nat, rest: seq<bv8>) { p <= |data| && data[p..] == rest }

  lemma RestAdvances(data: seq<bv8>, p: nat, a: seq<bv8>, b: seq<bv8>)
    requires Rest(data, p, a + b)
    ensures Rest(data, p + |a|, b) && data[p..p + |a|] == a
  {
  }

  lemma RestByte(data: seq<bv8>, p: nat, rest: seq<bv8>)
    requires Rest(data, p, rest) && rest != []
    ensures p < |data| && data[p] == rest[0] && Rest(data, p + 1, rest[1..])
  {
  }

  lemma BlankIsSkipped(data: seq<bv8>, p: nat)
    requires p < |data| && data[p] <= SPACE
    ensures TokenStart(data, p) == TokenStart(data, p + 1)
  {
  }

  lemma HashStartsComment(data: seq<bv8>, p: nat)
    requires p < |data| && data[p] == HASH
    ensures TokenStart(data, p) == TokenStart(data, SkipComment(data, p + 1))
  {
  }

  /** A comment's text is skipped up to the end of its line. */
  lemma {:induction false} CommentIsSkipped(data: seq<bv8>, p: nat, text: seq<bv8>, rest: seq<bv8>)
    requires Rest(data, p, text + ([NEWLINE] + rest)) && NEWLINE !in text
    ensures Rest(data, SkipComment(data, p), [NEWLINE] + rest)
    decreases |text|
  {
    RestByte(data, p, text + ([NEWLINE] + rest));
    if text == [] {
      assert text + ([NEWLINE] + rest) == [NEWLINE] + rest;
    } else {
      assert (text + ([NEWLINE] + rest))[1..] == text[1..] + ([NEWLINE] + rest);
      CommentIsSkipped(data, p + 1, text[1..], rest);
    }
  }

  lemma CommentLineIsSkipped(data: seq<bv8>, p: nat, text: seq<bv8>, rest: seq<bv8>) returns (next: nat)
    requires NEWLINE !in text && Rest(data, p, [HASH] + (text + ([NEWLINE] + rest)))
    ensures Rest(data, next, rest) && TokenStart(data, p) == TokenStart(data, next)
  {
    hide TokenStart, SkipComment, Rest;
    var line := text + ([NEWLINE] + rest);
    RestByte(data, p, [HASH] + line);
    assert ([HASH] + line)[1..] == line;
    CommentIsSkipped(data, p + 1, text, rest);
    HashStartsComment(data, p);
    var end := SkipComment(data, p + 1);
    RestByte(data, end, [NEWLINE] + rest);
    BlankIsSkipped(data, end);
    assert ([NEWLINE] + rest)[1..] == rest;
    next := end + 1;
  }

  lemma ItemIsSkipped(data: seq<bv8>, p: nat, item: Item, rest: seq<bv8>) returns (next: nat)
    requires item.Valid() && Rest(data, p, item.Print() + rest)
    ensures Rest(data, next, rest) && TokenStart(data, p) == TokenStart(data, next)
  {
    if item.Blank? {
      RestByte(data, p, [item.byte] + rest);
      BlankIsSkipped(data, p);
      assert ([item.byte] + rest)[1..] == rest;
      next := p + 1;
    } else {
      assert item.Print() + rest == [HASH] + (item.text + ([NEWLINE] + rest));
      next := CommentLineIsSkipped(data, p, item.text, rest);
    }
  }

  /** However white space and comments are mixed, the scanner arrives at the text behind them. */
  lemma {:induction false} GapIsSkipped(data: seq<bv8>, p: nat, gap: seq<Item>, text: seq<bv8>)
    requires ValidGap(gap) && Rest(data, p, PrintGap(gap) + text)
    requires text != [] && text[0] != HASH && text[0] > SPACE
    ensures Rest(data, TokenStart(data, p), text)
    decreases |gap|
  {
    hide Rest;
    if gap == [] {
      assert PrintGap(gap) + text == text;
      RestByte(data, p, text);
    } else {
      var first, more := gap[0].Print(), PrintGap(gap[1..]);
      assert PrintGap(gap) == first + more;
      hide *;
      Associate(first, more, text);
      var next := ItemIsSkipped(data, p, gap[0], more + text);
      GapIsSkipped(data, next, gap[1..], text);
    }
  }

  ghost predicate EndsText(rest: seq<bv8>) { rest != [] ==> rest[0] <= SPACE }

  lemma {:induction false} TextIsRead(data: seq<bv8>, p: nat, text: seq<bv8>, rest: seq<bv8>)
    requires Rest(data, p, text + rest) && (forall i | 0 <= i < |text| :: text[i] > SPACE)
    requires EndsText(rest)
    ensures TokenEnd(data, p) == p + |text|
    decreases |text|
  {
    if text == [] {
      assert text + rest == rest;
      if rest != [] {
        RestByte(data, p, rest);
      }
    } else {
      RestByte(data, p, text + rest);
      assert (text + rest)[1..] == text[1..] + rest;
      TextIsRead(data, p + 1, text[1..], rest);
    }
  }

  lemma TextAtStart(data: seq<bv8>, start: nat, text: seq<bv8>, rest: seq<bv8>) returns (next: nat)
    requires IsText(text) && Rest(data, start, text + rest) && EndsText(rest)
    ensures start < |data| && next == TokenEnd(data, start) && data[start..next] == text && Rest(data, next, rest)
  {
    TextIsRead(data, start, text, rest);
    RestAdvances(data, start, text, rest);
    next := start + |text|;
  }

  /** A token between a gap and white space is read exactly. */
  lemma TokenIsRead(data: seq<bv8>, p: nat, gap: seq<Item>, text: seq<bv8>, rest: seq<bv8>) returns (next: nat)
    requires ValidGap(gap) && IsText(text) && Rest(data, p, PrintGap(gap) + (text + rest)) && EndsText(rest)
    ensures NextToken(data, p) == Ok(Token(text, next)) && Rest(data, next, rest)
  {
    GapIsSkipped(data, p, gap, text + rest);
    next := TextAtStart(data, TokenStart(data, p), text, rest);
  }

  lemma NumberIsRead(data: seq<bv8>, p: nat, gap: seq<Item>, text: seq<bv8>, rest: seq<bv8>,
                     other: seq<bv8> -> Option<int>) returns (next: nat)
    requires ValidGap(gap) && IsText(text) && ToInt32(text, other).Some?
    requires Rest(data, p, PrintGap(gap) + (text + rest)) && EndsText(rest)
    ensures NextNumber(data, p, other) == Ok((ToInt32(text, other).value, next)) && Rest(data, next, rest)
  {
    next := TokenIsRead(data, p, gap, text, rest);
  }

  lemma HeaderOfNumbers(data: seq<bv8>, other: seq<bv8> -> Option<int>, width: int, height: int,
                        p1: nat, p2: nat, p3: nat, p4: nat)
    requires p1 <= |data| && p2 <= |data| && p3 <= |data|
    requires NextNumber(data, p1, other) == Ok((width, p2))
    requires NextNumber(data, p2, other) == Ok((height, p3))
    requires NextNumber(data, p3, other) == Ok((255, p4))
    ensures ParseHeader(data, p1, other) == Ok(Header(width, height, p4))
  {
  }

  lemma ParseOfParts(data: seq<bv8>, other: seq<bv8> -> Option<int>, magic: seq<bv8>, p1: nat, header: Header)
    requires p1 <= |data| && NextToken(data, 0) == Ok(Token(magic, p1)) && IsP6(magic)
    requires ParseHeader(data, p1, other) == Ok(header)
    ensures Parse(data, other) == ParsePixels(data, header.next + 1, header.width, header.height)
  {
    hide NextToken, ParseHeader, ParsePixels;
  }

  lemma SeparatorIsBlank(gap: seq<Item>, rest: seq<bv8>)
    requires ValidSeparator(gap)
    ensures EndsText(PrintGap(gap) + rest)
  {
  }

  /** The round trip. Whatever white space and comments separate its numerals, and whatever numerals convert, a P6 file
      reads back as exactly its dimensions and its packed pixels, and it is rejected exactly when it has too little
      pixel data or a negative number of pixels. */
  lemma PpmRoundTrip(f: File, other: seq<bv8> -> Option<int>)
    requires f.Valid(other)
    ensures Parse(f.Print(), other) == f.Picture(other)
  {
    var p1 := MagicIsRead(f, other);
    FileIsRead(f.Print(), f, other, p1);
  }

  lemma FileIsRead(data: seq<bv8>, f: File, other: seq<bv8> -> Option<int>, p1: nat)
    requires f.Valid(other) && NextToken(data, 0) == Ok(Token(f.magic, p1)) && Rest(data, p1, f.Numbers())
    ensures Parse(data, other) == f.Picture(other)
  {
    hide NextToken, NextNumber, ParseHeader, Parse, ParsePixels, Contents, ToInt32, PrintGap;
    var p4 := NumbersAreRead(data, p1, f, other);
    var width, height := ToInt32(f.width, other).value, ToInt32(f.height, other).value;
    ParseOfParts(data, other, f.magic, p1, Header(width, height, p4));
    RestAdvances(data, p4, [f.last], f.body);
    PixelsAreRead(data, p4 + 1, f.body, width, height);
  }

  lemma MagicIsRead(f: File, other: seq<bv8> -> Option<int>) returns (p1: nat)
    requires f.Valid(other)
    ensures NextToken(f.Print(), 0) == Ok(Token(f.magic, p1)) && Rest(f.Print(), p1, f.Numbers())
  {
    hide ToInt32;
    var data := f.Print();
    assert data[0..] == data;
    SeparatorIsBlank(f.gap1, f.width + (PrintGap(f.gap2) + (f.height + (PrintGap(f.gap3) +
                             (f.maxval + ([f.last] + f.body))))));
    p1 := TokenIsRead(data, 0, f.lead, f.magic, f.Numbers());
  }

  lemma NumbersAreRead(data: seq<bv8>, p1: nat, f: File, other: seq<bv8> -> Option<int>) returns (p4: nat)
    requires f.Valid(other) && Rest(data, p1, f.Numbers())
    ensures ParseHeader(data, p1, other) ==
            Ok(Header(ToInt32(f.width, other).value, ToInt32(f.height, other).value, p4))
    ensures Rest(data, p4, [f.last] + f.body)
  {
    hide ToInt32, PrintGap, NextNumber, ParseHeader;
    var r4 := [f.last] + f.body;
    var r3 := PrintGap(f.gap3) + (f.maxval + r4);
    var r2 := PrintGap(f.gap2) + (f.height + r3);
    SeparatorIsBlank(f.gap2, f.height + r3);
    var p2 := NumberIsRead(data, p1, f.gap1, f.width, r2, other);
    SeparatorIsBlank(f.gap3, f.maxval + r4);
    var p3 := NumberIsRead(data, p2, f.gap2, f.height, r3, other);
    p4 := NumberIsRead(data, p3, f.gap3, f.maxval, r4, other);
    HeaderOfNumbers(data, other, ToInt32(f.width, other).value, ToInt32(f.height, other).value, p1, p2, p3, p4);
  }

  lemma PixelsAreRead(data: seq<bv8>, at: nat, body: seq<bv8>, width: int, height: int)
    requires Rest(data, at, body)
    ensures ParsePixels(data, at, width, height) == Contents(width, height, body)
  {
    var count := width * height;
    if 0 <= count * 3 <= |body| {
      forall i | 0 <= i < count ensures PackAll(data, at, count)[i] == PackAll(body, 0, count)[i] {
        assert forall j | 0 <= j < |body| :: data[at + j] == data[at..][j] == body[j];
      }
      assert PackAll(data, at, count) == PackAll(body, 0, count);
    }
  }

  // ---- In bytes ----

  /** What the scanner skips: bytes up to 32, and from a byte 35 up to the next byte 10. */
  lemma SkippedInBytes(data: seq<bv8>, p: nat, end: nat)
    requires p <= end < |data|
    ensures data[p] <= 32 ==> NextToken(data, p) == NextToken(data, p + 1)
    ensures data[p] == 35 && data[end] == 10 && 10 !in data[p..end] ==> NextToken(data, p) == NextToken(data, end + 1)
  {
    if data[p] <= 32 {
      BlankIsSkipped(data, p);
    }
    if data[p] == 35 && data[end] == 10 && 10 !in data[p..end] {
      HashStartsComment(data, p);
      CommentEnds(data, p + 1, end);
      BlankIsSkipped(data, end);
    }
  }

  lemma {:induction false} CommentEnds(data: seq<bv8>, p: nat, end: nat)
    requires p <= end < |data| && data[end] == 10 && 10 !in data[p..end]
    ensures SkipComment(data, p) == end
    decreases end - p
  {
    if p < end {
      assert data[p] == data[p..end][0];
      assert data[p + 1..end] == data[p..end][1..];
      CommentEnds(data, p + 1, end);
    }
  }

  /** A numeral is written in ASCII, the last digit of the number last. */
  lemma DecimalInAscii(n: nat)
    ensures var text, last := Decimal(n), |Decimal(n)| - 1;
            last >= 0 && text[last] == (48 + n % 10) as bv8 && text[..last] == if n < 10 then [] else Decimal(n / 10)
  {
    DigitIsAscii(n % 10);
  }

  lemma DigitIsAscii(d: nat)
    requires d < 10
    ensures Digit(d) == (48 + d) as bv8
  {
  }

  lemma DecimalOf255(other: seq<bv8> -> Option<int>)
    ensures ToInt32([50, 53, 53], other) == Some(255) && IsText([50, 53, 53])
  {
    DecimalIsNumeral(255, other);
    assert Decimal(2) == [50] && Decimal(25) == [50, 53] && Decimal(255) == [50, 53, 53];
  }

  /** The bytes of a plain picture file: "P6", the width, the height and 255, each on its own line but for the first two
      numbers, which a space separates. */
  function PlainFile(width: nat, height: nat, body: seq<bv8>): seq<bv8> {
    [80, 54, 10] + Decimal(width) + [32] + Decimal(height) + [10, 50, 53, 53, 10] + body
  }

  function AsFile(width: nat, height: nat, body: seq<bv8>): File {
    File([], [80, 54], [Blank(10)], Decimal(width), [Blank(32)], Decimal(height), [Blank(10)], [50, 53, 53], 10, body)
  }

  lemma PlainFileIsPrinted(width: nat, height: nat, body: seq<bv8>)
    ensures AsFile(width, height, body).Print() == PlainFile(width, height, body)
  {
    assert PrintGap([]) == [];
    hide Decimal, PrintGap;
    OneByteGap(10);
    OneByteGap(32);
    MaxvalLines(body);
    Flatten(Decimal(width), Decimal(height), [10, 50, 53, 53, 10] + body);
    Associate([80, 54, 10] + Decimal(width) + [32] + Decimal(height), [10, 50, 53, 53, 10], body);
  }

  lemma MaxvalLines(body: seq<bv8>)
    ensures [10] + ([50, 53, 53] + ([10] + body)) == [10, 50, 53, 53, 10] + body
  {
  }

  lemma Flatten(width: seq<bv8>, height: seq<bv8>, rest: seq<bv8>)
    ensures [] + ([80, 54] + ([10] + (width + ([32] + (height + rest))))) ==
            [80, 54, 10] + width + [32] + height + rest
  {
  }

  lemma OneByteGap(byte: bv8)
    ensures PrintGap([Blank(byte)]) == [byte]
  {
    assert [Blank(byte)][1..] == [];
  }

  lemma PlainFileIsValid(width: nat, height: nat, body: seq<bv8>, other: seq<bv8> -> Option<int>)
    requires width < 0x8000_0000 && height < 0x8000_0000
    ensures AsFile(width, height, body).Valid(other)
    ensures AsFile(width, height, body).Picture(other) == Contents(width, height, body)
  {
    hide Decimal, ToInt32;
    DecimalIsNumeral(width, other);
    DecimalIsNumeral(height, other);
    DecimalOf255(other);
  }

  /** A plain picture file is read as exactly its picture, pixel by pixel, or rejected as truncated exactly when it has
      fewer than three bytes a pixel. */
  lemma PlainFileIsRead(width: nat, height: nat, body: seq<bv8>, other: seq<bv8> -> Option<int>)
    requires width < 0x8000_0000 && height < 0x8000_0000
    ensures var r := Parse(PlainFile(width, height, body), other);
            if |body| < width * height * 3 then r == Err(Truncated)
            else
              && r.Ok? && r.value.width == width && r.value.height == height && |r.value.pixels| == width * height
              && forall i | 0 <= i < width * height :: 3 * i + 2 < |body| &&
                   r.value.pixels[i] == 0xff00_0000 | ((body[3 * i] as bv32) << 16) |
                                        ((body[3 * i + 1] as bv32) << 8) | (body[3 * i + 2] as bv32)
  {
    hide Parse, PlainFile, AsFile, Contents;
    PlainFileIsPrinted(width, height, body);
    PlainFileIsValid(width, height, body, other);
    PpmRoundTrip(AsFile(width, height, body), other);
    PictureInBytes(width, height, body);
  }

  lemma PictureInBytes(width: nat, height: nat, body: seq<bv8>)
    ensures var r := Contents(width, height, body);
            if |body| < width * height * 3 then r == Err(Truncated)
            else
              && r.Ok? && r.value.width == width && r.value.height == height && |r.value.pixels| == width * height
              && forall i | 0 <= i < width * height :: 3 * i + 2 < |body| &&
                   r.value.pixels[i] == 0xff00_0000 | ((body[3 * i] as bv32) << 16) |
                                        ((body[3 * i + 1] as bv32) << 8) | (body[3 * i + 2] as bv32)
  {
    assert width * height >= 0;
  }

  /** A file is rejected for its magic number exactly if its first token is neither "P6" nor "p6". */
  lemma MagicDecides(lead: seq<Item>, magic: seq<bv8>, rest: seq<bv8>, other: seq<bv8> -> Option<int>)
    requires ValidGap(lead) && IsText(magic) && EndsText(rest)
    ensures Parse(PrintGap(lead) + (magic + rest), other) == Err(BadMagic) <==>
            magic != [80, 54] && magic != [112, 54]
  {
    hide *;
    var data := PrintGap(lead) + (magic + rest);
    WholeFile(data);
    var next := TokenIsRead(data, 0, lead, magic, rest);
    MagicTexts(magic);
    BadMagicIff(data, Token(magic, next), other);
  }

  lemma WholeFile(data: seq<bv8>)
    ensures Rest(data, 0, data)
  {
    assert data[0..] == data;
  }

  lemma BadMagicIff(data: seq<bv8>, token: Token, other: seq<bv8> -> Option<int>)
    requires NextToken(data, 0) == Ok(token)
    ensures Parse(data, other) == Err(BadMagic) <==> !IsP6(token.text)
  {
    if IsP6(token.text) {
      OtherErrors(data, token.next, other);
    }
    hide NextToken, IsP6, ParseHeader, ParsePixels;
  }

  lemma MagicTexts(magic: seq<bv8>)
    ensures IsP6(magic) <==> magic == [80, 54] || magic == [112, 54]
  {
    if |magic| == 2 {
      assert magic == [magic[0], magic[1]];
    }
  }

  lemma OtherErrors(data: seq<bv8>, p: nat, other: seq<bv8> -> Option<int>)
    requires p <= |data|
    ensures ParseHeader(data, p, other).Err? ==> ParseHeader(data, p, other).error != BadMagic
    ensures forall at: nat, w, h :: ParsePixels(data, at, w, h).Err? ==> ParsePixels(data, at, w, h).error != BadMagic
  {
  }

  // ---- Only printed files are accepted ----

  lemma CommentHasNoNewline(data: seq<bv8>, p: nat)
    requires p <= |data|
    ensures NEWLINE !in data[p..SkipComment(data, p)]
    ensures SkipComment(data, p) < |data| ==> data[SkipComment(data, p)] == NEWLINE
    decreases |data| - p
  {
    if p < |data| && data[p] != NEWLINE {
      CommentHasNoNewline(data, p + 1);
      var q := SkipComment(data, p + 1);
      assert data[p..q] == [data[p]] + data[p + 1..q];
    }
  }

  lemma NothingBehindTheEnd(data: seq<bv8>)
    ensures TokenStart(data, |data|) == |data|
  {
  }

  /** What the scanner skips is a gap. */
  lemma {:induction false} SkippedIsGap(data: seq<bv8>, p: nat) returns (gap: seq<Item>)
    requires p <= |data| && TokenStart(data, p) < |data|
    ensures ValidGap(gap) && data[p..TokenStart(data, p)] == PrintGap(gap)
    ensures data[TokenStart(data, p)] != HASH && data[TokenStart(data, p)] > SPACE
    ensures data[p] <= SPACE ==> ValidSeparator(gap)
    decreases |data| - p
  {
    var start := TokenStart(data, p);
    if data[p] <= SPACE {
      BlankIsSkipped(data, p);
      hide TokenStart, SkipBlank, PrintGap;
      var rest := SkippedIsGap(data, p + 1);
      gap := GapFrom(data, p, p + 1, start, Blank(data[p]), rest);
    } else if data[p] == HASH {
      var next := CommentLineOf(data, p);
      hide TokenStart, SkipBlank, PrintGap;
      var rest := SkippedIsGap(data, next);
      gap := GapFrom(data, p, next, start, Comment(data[p + 1..next - 1]), rest);
    } else {
      gap := [];
    }
  }

  /** A comment that something follows is a whole line. */
  lemma CommentLineOf(data: seq<bv8>, p: nat) returns (next: nat)
    requires p < |data| && data[p] == HASH && TokenStart(data, p) < |data|
    ensures p + 2 <= next <= TokenStart(data, p) == TokenStart(data, next)
    ensures NEWLINE !in data[p + 1..next - 1] && data[p..next] == [HASH] + data[p + 1..next - 1] + [NEWLINE]
  {
    HashStartsComment(data, p);
    CommentHasNoNewline(data, p + 1);
    var end := SkipComment(data, p + 1);
    if end == |data| {
      NothingBehindTheEnd(data);
    }
    BlankIsSkipped(data, end);
    hide TokenStart, SkipComment;
    CommentLine(data, p, end);
    next := end + 1;
  }

  lemma CommentLine(data: seq<bv8>, p: nat, end: nat)
    requires p < end < |data| && data[p] == HASH && data[end] == NEWLINE
    ensures data[p..end + 1] == [HASH] + data[p + 1..end] + [NEWLINE]
  {
  }

  lemma PrintedGap(item: Item, rest: seq<Item>)
    ensures PrintGap([item] + rest) == item.Print() + PrintGap(rest)
  {
  }

  lemma GapFrom(data: seq<bv8>, p: nat, q: nat, r: nat, item: Item, rest: seq<Item>) returns (gap: seq<Item>)
    requires p <= q <= r <= |data| && item.Valid() && ValidGap(rest)
    requires data[p..q] == item.Print() && data[q..r] == PrintGap(rest)
    ensures gap == [item] + rest && ValidGap(gap) && data[p..r] == PrintGap(gap)
  {
    gap := [item] + rest;
    hide Item.Print, PrintGap;
    PrintedGap(item, rest);
    assert data[p..r] == data[p..q] + data[q..r];
  }

  lemma {:induction false} TokenIsText(data: seq<bv8>, p: nat)
    requires p <= |data|
    ensures forall i | p <= i < TokenEnd(data, p) :: data[i] > SPACE
    ensures TokenEnd(data, p) < |data| ==> data[TokenEnd(data, p)] <= SPACE
    ensures p < |data| && data[p] > SPACE ==> p < TokenEnd(data, p)
    decreases |data| - p
  {
    if p < |data| && data[p] > SPACE {
      TokenIsText(data, p + 1);
    }
  }

  /** A token that was read stands behind a gap, and is followed by white space or the end. */
  lemma ReadTokenWasPrinted(data: seq<bv8>, p: nat) returns (gap: seq<Item>)
    requires p <= |data| && NextToken(data, p).Ok?
    ensures var token := NextToken(data, p).value;
            && ValidGap(gap) && p < |data| && (data[p] <= SPACE ==> ValidSeparator(gap))
            && data[p..token.next] == PrintGap(gap) + token.text && IsText(token.text)
            && (token.next < |data| ==> data[token.next] <= SPACE)
  {
    hide TokenStart, TokenEnd, PrintGap;
    gap := SkippedIsGap(data, p);
    var start := TokenStart(data, p);
    TokenIsText(data, start);
    assert data[p..TokenEnd(data, start)] == data[p..start] + data[start..TokenEnd(data, start)];
  }

  lemma ReadNumberWasPrinted(data: seq<bv8>, p: nat, other: seq<bv8> -> Option<int>)
    returns (gap: seq<Item>, text: seq<bv8>)
    requires p < |data| && data[p] <= SPACE && NextNumber(data, p, other).Ok?
    ensures var (value, next) := NextNumber(data, p, other).value;
            && ValidSeparator(gap) && IsText(text) && ToInt32(text, other) == Some(value)
            && data[p..next] == PrintGap(gap) + text && (next < |data| ==> data[next] <= SPACE)
  {
    gap := ReadTokenWasPrinted(data, p);
    text := NextToken(data, p).value.text;
  }

  /** The converse of the round trip: a file that is accepted is a printed one, whatever texts convert. */
  lemma AcceptedIsPrinted(data: seq<bv8>, other: seq<bv8> -> Option<int>) returns (f: File)
    requires Parse(data, other).Ok?
    ensures f.Valid(other) && f.Print() == data && f.Picture(other) == Parse(data, other)
  {
    hide PrintGap, ToInt32, TokenStart, TokenEnd, PackAll;
    var lead := ReadTokenWasPrinted(data, 0);
    var magic := NextToken(data, 0).value;
    var header := ParseHeader(data, magic.next, other).value;
    var number1 := NextNumber(data, magic.next, other).value;
    var number2 := NextNumber(data, number1.1, other).value;
    var number3 := NextNumber(data, number2.1, other).value;
    PixelsNeedRoom(data, header);
    var gap1, width := ReadNumberWasPrinted(data, magic.next, other);
    var gap2, height := ReadNumberWasPrinted(data, number1.1, other);
    var gap3, maxval := ReadNumberWasPrinted(data, number2.1, other);
    var end := number3.1;
    f := File(lead, magic.text, gap1, width, gap2, height, gap3, maxval, data[end], data[end + 1..]);
    PiecesOf(data, magic.next, number1.1, number2.1, end, f);
    PpmRoundTrip(f, other);
  }

  lemma PixelsNeedRoom(data: seq<bv8>, header: Header)
    requires ParsePixels(data, header.next + 1, header.width, header.height).Ok?
    ensures header.next < |data|
  {
  }

  lemma PiecesOf(data: seq<bv8>, p1: nat, p2: nat, p3: nat, p4: nat, f: File)
    requires p1 <= p2 <= p3 <= p4 < |data|
    requires data[0..p1] == PrintGap(f.lead) + f.magic && data[p1..p2] == PrintGap(f.gap1) + f.width
    requires data[p2..p3] == PrintGap(f.gap2) + f.height && data[p3..p4] == PrintGap(f.gap3) + f.maxval
    requires f.last == data[p4] && f.body == data[p4 + 1..]
    ensures f.Print() == data
  {
    hide PrintGap;
    var r4 := [f.last] + f.body;
    assert data[p4..] == r4;
    Glue(data, p3, p4, PrintGap(f.gap3), f.maxval, r4);
    var r3 := PrintGap(f.gap3) + (f.maxval + r4);
    Glue(data, p2, p3, PrintGap(f.gap2), f.height, r3);
    var r2 := PrintGap(f.gap2) + (f.height + r3);
    Glue(data, p1, p2, PrintGap(f.gap1), f.width, r2);
    Glue(data, 0, p1, PrintGap(f.lead), f.magic, f.Numbers());
    assert data[0..] == data;
  }

  lemma Glue(data: seq<bv8>, p: nat, q: nat, a: seq<bv8>, b: seq<bv8>, rest: seq<bv8>)
    requires p <= q <= |data| && data[p..q] == a + b && data[q..] == rest
    ensures data[p..] == a + (b + rest)
  {
  }
}
