/** The Saturn executable format of kernel/user/executable.c: the parser accepts exactly the files
    that a valid image is laid out as. */
module Executable {
  import opened FileBytes
  import opened SaturnFs

  const EXEC_MAGIC := 0x53415458
  const EXEC_VERSION := 1
  const HEADER_SIZE := 24
  const PAGE := 4096

  datatype Image = Image(code: Bytes, data: Bytes, entry: nat)

  datatype Parsed = Rejected | Accepted(image: Image)

  function HalfAt(b: Bytes, i: nat): (n: nat)
    requires i + 2 <= |b|
    ensures n < 65536
  {
    b[i] as int + 256 * (b[i + 1] as int)
  }

  /** saturn_exec_parse. The checksum is the same accumulation that SaturnFS uses. */
  function Parse(file: Bytes): (r: Parsed)
  {
    if |file| < HEADER_SIZE then Rejected
    else
      var codeSize, dataSize, entry := WordAt(file, 8), WordAt(file, 12), WordAt(file, 16);
      if WordAt(file, 0) != EXEC_MAGIC || HalfAt(file, 4) != EXEC_VERSION || HalfAt(file, 6) != HEADER_SIZE ||
         codeSize == 0 || codeSize > PAGE || dataSize > PAGE || entry >= codeSize || entry % 4 != 0 then Rejected
      else if HEADER_SIZE + codeSize + dataSize != |file| then Rejected
      else if Checksum(file[HEADER_SIZE..]) != WordAt(file, 20) then Rejected
      else Accepted(Image(file[HEADER_SIZE..HEADER_SIZE + codeSize], file[HEADER_SIZE + codeSize..], entry))
  }

  /** saturn_exec_parse, with the checksum loop. */
  method ParseFile(file: Bytes) returns (r: Parsed)
    ensures r == Parse(file)
  {
    if |file| < HEADER_SIZE {
      return Rejected;
    }
    var codeSize, dataSize, entry := WordAt(file, 8), WordAt(file, 12), WordAt(file, 16);
    if WordAt(file, 0) != EXEC_MAGIC || HalfAt(file, 4) != EXEC_VERSION || HalfAt(file, 6) != HEADER_SIZE ||
       codeSize == 0 || codeSize > PAGE || dataSize > PAGE || entry >= codeSize || entry % 4 != 0 {
      return Rejected;
    }
    var payloadSize := codeSize + dataSize;
    if payloadSize > |file| - HEADER_SIZE || HEADER_SIZE + payloadSize != |file| {
      return Rejected;
    }
    var payload := file[HEADER_SIZE..];
    var value := 0;
    for i := 0 to |payload|
      invariant value == Checksum(payload[..i])
    {
      assert payload[..i + 1][..i] == payload[..i];
      value := ChecksumStep(value, payload[i]);
    }
    assert payload[..|payload|] == payload;
    if value != WordAt(file, 20) {
      return Rejected;
    }
    r := Accepted(Image(payload[..codeSize], payload[codeSize..], entry));
  }

  predicate ValidImage(m: Image) {
    0 < |m.code| <= PAGE && |m.data| <= PAGE && m.entry < |m.code| && m.entry % 4 == 0
  }

  /** The file of an image. */
  function Layout(m: Image): (r: Bytes)
    requires ValidImage(m)
    ensures |r| == HEADER_SIZE + |m.code| + |m.data|
  {
    Word(EXEC_MAGIC) + [EXEC_VERSION, 0, HEADER_SIZE, 0] + Word(|m.code|) + Word(|m.data|) + Word(m.entry) +
    Word(Checksum(m.code + m.data)) + m.code + m.data
  }

  /** A word is determined by its bytes. */
  lemma WordUnique(b: Bytes, i: nat, n: nat)
    requires i + 4 <= |b| && n < U32
    ensures WordAt(b, i) == n <==> b[i..i + 4] == Word(n)
  {
    WordRoundTrip(n);
    var w := Word(n);
    assert WordAt(w, 0) == n;
    if WordAt(b, i) == n {
      FourDigits(b[i], b[i + 1], b[i + 2], b[i + 3], w[0], w[1], w[2], w[3]);
      assert b[i..i + 4] == w;
    }
    if b[i..i + 4] == w {
      assert b[i] == b[i..i + 4][0] && b[i + 1] == b[i..i + 4][1] && b[i + 2] == b[i..i + 4][2] &&
        b[i + 3] == b[i..i + 4][3];
    }
  }

  lemma FourDigits(a0: Byte, a1: Byte, a2: Byte, a3: Byte, b0: Byte, b1: Byte, b2: Byte, b3: Byte)
    requires (a0 as int) + 256 * (a1 as int) + 65536 * (a2 as int) + 16777216 * (a3 as int) ==
             (b0 as int) + 256 * (b1 as int) + 65536 * (b2 as int) + 16777216 * (b3 as int)
    ensures a0 == b0 && a1 == b1 && a2 == b2 && a3 == b3
  {
    LowDigit(a0, b0, a1 + 256 * a2 + 65536 * a3, b1 + 256 * b2 + 65536 * b3);
    LowDigit(a1, b1, a2 + 256 * a3, b2 + 256 * b3);
    LowDigit(a2, b2, a3, b3);
  }

  lemma LowDigit(a: Byte, b: Byte, x: nat, y: nat)
    requires a + 256 * x == b + 256 * y
    ensures a == b && x == y
  {
  }

  /** Header fields of a laid-out file. */
  lemma {:induction false} LayoutFields(m: Image)
    requires ValidImage(m)
    ensures var f := Layout(m);
      && WordAt(f, 0) == EXEC_MAGIC && HalfAt(f, 4) == EXEC_VERSION && HalfAt(f, 6) == HEADER_SIZE
      && WordAt(f, 8) == |m.code| && WordAt(f, 12) == |m.data| && WordAt(f, 16) == m.entry
      && WordAt(f, 20) == Checksum(m.code + m.data)
      && f[HEADER_SIZE..] == m.code + m.data
  {
    WordRoundTrip(EXEC_MAGIC);
    WordRoundTrip(|m.code|);
    WordRoundTrip(|m.data|);
    WordRoundTrip(m.entry);
    WordRoundTrip(Checksum(m.code + m.data));
  }

  lemma {:induction false} ParseOfLayout(m: Image)
    requires ValidImage(m)
    ensures Parse(Layout(m)) == Accepted(m)
  {
    var f := Layout(m);
    LayoutFields(m);
    assert f[HEADER_SIZE..HEADER_SIZE + |m.code|] == f[HEADER_SIZE..][..|m.code|] == m.code;
    assert f[HEADER_SIZE + |m.code|..] == f[HEADER_SIZE..][|m.code|..] == m.data;
  }

  lemma HalvesUnique(b: Bytes)
    requires |b| >= 8 && HalfAt(b, 4) == EXEC_VERSION && HalfAt(b, 6) == HEADER_SIZE
    ensures b[4..8] == [EXEC_VERSION, 0, HEADER_SIZE, 0]
  {
  }

  /** What acceptance says about the header, field by field. */
  lemma {:induction false} FieldsOfAccepted(file: Bytes)
    requires Parse(file).Accepted?
    ensures var m := Parse(file).image;
      && ValidImage(m) && |file| == HEADER_SIZE + |m.code| + |m.data| && file[HEADER_SIZE..] == m.code + m.data
      && WordAt(file, 0) == EXEC_MAGIC && HalfAt(file, 4) == EXEC_VERSION && HalfAt(file, 6) == HEADER_SIZE
      && WordAt(file, 8) == |m.code| && WordAt(file, 12) == |m.data| && WordAt(file, 16) == m.entry
      && WordAt(file, 20) == Checksum(m.code + m.data)
  {
  }

  lemma {:induction false} HeaderOfAccepted(file: Bytes, m: Image)
    requires ValidImage(m) && |file| >= HEADER_SIZE
    requires WordAt(file, 0) == EXEC_MAGIC && HalfAt(file, 4) == EXEC_VERSION && HalfAt(file, 6) == HEADER_SIZE
    requires WordAt(file, 8) == |m.code| && WordAt(file, 12) == |m.data| && WordAt(file, 16) == m.entry
    requires WordAt(file, 20) == Checksum(m.code + m.data)
    ensures file[0..4] == Word(EXEC_MAGIC) && file[4..8] == [EXEC_VERSION, 0, HEADER_SIZE, 0]
    ensures file[8..12] == Word(|m.code|) && file[12..16] == Word(|m.data|)
    ensures file[16..20] == Word(m.entry) && file[20..24] == Word(Checksum(m.code + m.data))
  {
    HalvesUnique(file);
    WordUnique(file, 0, EXEC_MAGIC);
    WordUnique(file, 8, |m.code|);
    WordUnique(file, 12, |m.data|);
    WordUnique(file, 16, m.entry);
    WordUnique(file, 20, Checksum(m.code + m.data));
  }

  /** The parser accepts a file with an image iff the image is valid and the file is its layout. */
  lemma {:induction false} ParseExactlyInverse(file: Bytes, m: Image)
    ensures Parse(file) == Accepted(m) <==> ValidImage(m) && file == Layout(m)
  {
    if ValidImage(m) && file == Layout(m) {
      ParseOfLayout(m);
    }
    if Parse(file) == Accepted(m) {
      FieldsOfAccepted(file);
      HeaderOfAccepted(file, m);
      assert file == file[0..4] + file[4..8] + file[8..12] + file[12..16] + file[16..20] + file[20..24] + file[24..];
    }
  }
}
