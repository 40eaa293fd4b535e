/**
  The text at the head of an image file: how `compress_volume` prints it and how `restore` finds
  the numbers in it again.
 */
module ImageHeader {
  import opened Bits

  const HEADERLG: nat := 2048

  /** "SECTORS=", "|BLOCKS=" without its bar, "ALLOCTABLELG=". */
  const SECTORS: seq<byte> := [83, 69, 67, 84, 79, 82, 83, 61]
  const BLOCKS: seq<byte> := [66, 76, 79, 67, 75, 83, 61]
  const ALLOC: seq<byte> := [65, 76, 76, 79, 67, 84, 65, 66, 76, 69, 76, 71, 61]
  const BAR: byte := 124
  const NEWLINE: byte := 10

  // ----- decimal numbers -----------------------------------------------------------------

  predicate IsDigit(x: byte) { 48 <= x <= 57 }

  /** `%d` of `sprintf`. */
  function Decimal(n: nat): (s: seq<byte>)
    ensures s != [] && forall i :: 0 <= i < |s| ==> IsDigit(s[i])
  {
    if n < 10 then [(48 + n) as byte] else Decimal(n / 10) + [(48 + n % 10) as byte]
  }

  function Value(s: seq<byte>): (n: nat)
    requires forall i :: 0 <= i < |s| ==> IsDigit(s[i])
  {
    if s == [] then 0
    else
      var k := |s| - 1;
      assert IsDigit(s[k]);
      10 * Value(s[..k]) + (s[k] as nat - 48)
  }

  lemma {:induction false} ValueOfDecimal(n: nat)
    ensures Value(Decimal(n)) == n
  {
    var s := Decimal(n);
    if n < 10 {
      assert s[..|s| - 1] == [];
    } else {
      ValueOfDecimal(n / 10);
      assert s[..|s| - 1] == Decimal(n / 10);
    }
  }

  function LeadingDigits(t: seq<byte>): (k: nat)
    ensures k <= |t| && (forall i :: 0 <= i < k ==> IsDigit(t[i])) && (k < |t| ==> !IsDigit(t[k]))
  {
    if t == [] || !IsDigit(t[0]) then 0 else 1 + LeadingDigits(t[1..])
  }

  datatype Number = Number(value: nat) | NoNumber

  /** `%d` of `sscanf`, on text that begins with neither blanks nor a sign. */
  function Scan(t: seq<byte>): (r: Number) {
    var k := LeadingDigits(t);
    if k == 0 then NoNumber else Number(Value(t[..k]))
  }

  lemma {:induction false} ScanDecimal(n: nat, rest: seq<byte>)
    requires rest != [] && !IsDigit(rest[0])
    ensures Scan(Decimal(n) + rest) == Number(n)
  {
    var d, t := Decimal(n), Decimal(n) + rest;
    var k := LeadingDigits(t);
    assert t[|d|] == rest[0];
    assert forall i :: 0 <= i < |d| ==> t[i] == d[i];
    assert k == |d|;
    assert t[..k] == d;
    ValueOfDecimal(n);
  }

  // ----- strings --------------------------------------------------------------------------

  predicate At(text: seq<byte>, tag: seq<byte>, i: nat) {
    i + |tag| <= |text| && text[i..i + |tag|] == tag
  }

  ghost predicate Contains(text: seq<byte>, tag: seq<byte>) {
    exists i :: 0 <= i <= |text| && At(text, tag, i)
  }

  /** `strstr`: the first place the tag is at, or past the end. */
  function Find(text: seq<byte>, tag: seq<byte>, from: nat): (i: nat)
    requires from <= |text|
    ensures i <= |text| ==> from <= i && At(text, tag, i)
    ensures forall j :: from <= j < i && j <= |text| ==> !At(text, tag, j)
    ensures i <= |text| + 1
    decreases |text| - from
  {
    if At(text, tag, from) then from
    else if from == |text| then |text| + 1
    else Find(text, tag, from + 1)
  }

  /** The C string in a buffer. */
  function Text(buf: seq<byte>): (t: seq<byte>)
    ensures t <= buf && forall i :: 0 <= i < |t| ==> t[i] != 0
    ensures |t| < |buf| ==> buf[|t|] == 0
  {
    if buf == [] || buf[0] == 0 then [] else [buf[0]] + Text(buf[1..])
  }

  /** The number behind a tag, if both are there. */
  function NumberAfter(buf: seq<byte>, tag: seq<byte>): (r: Number) {
    var text := Text(buf);
    var i := Find(text, tag, 0);
    if i + |tag| <= |text| then Scan(text[i + |tag|..]) else NoNumber
  }

  // ----- the header -----------------------------------------------------------------------------

  function FirstString(sectors: nat, blocks: nat, info: seq<byte>): (s: seq<byte>) {
    (SECTORS + Decimal(sectors) + [BAR]) + (BLOCKS + (Decimal(blocks) + ([BAR] + info)))
  }

  function AllocLine(lg: nat): (s: seq<byte>) {
    ALLOC + Decimal(lg) + [NEWLINE]
  }

  function Padded(text: seq<byte>, n: nat): (s: seq<byte>)
    ensures |text| <= n ==> |s| == n
    ensures text <= s
  {
    if |text| <= n then text + seq(n - |text|, _ => 0) else text
  }

  function Header(prefix: seq<byte>, lg: nat): (s: seq<byte>) {
    Padded(prefix + AllocLine(lg), HEADERLG)
  }

  /** Free text that can be put into a header: a C string without the tags, short enough. */
  ghost predicate Fits(prefix: seq<byte>, lg: nat) {
    && |prefix| + |AllocLine(lg)| < HEADERLG
    && (forall i :: 0 <= i < |prefix| ==> prefix[i] != 0)
    && !Contains(prefix, ALLOC)
  }

  lemma {:induction false} TextOfPadded(text: seq<byte>, n: nat)
    requires |text| < n && forall i :: 0 <= i < |text| ==> text[i] != 0
    ensures Text(Padded(text, n)) == text
  {
    var buf := Padded(text, n);
    var t := Text(buf);
    assert buf[|text|] == 0;
    assert forall i :: 0 <= i < |text| ==> buf[i] == text[i];
  }

  lemma {:induction false} FindFirst(text: seq<byte>, tag: seq<byte>, k: nat)
    requires k <= |text| && At(text, tag, k) && forall i :: 0 <= i < k ==> !At(text, tag, i)
    ensures Find(text, tag, 0) == k
  {
  }

  /** A tag whose last byte occurs only once in it cannot begin before the text it follows and end in it. */
  lemma {:induction false} AllocFirst(prefix: seq<byte>, rest: seq<byte>)
    requires !Contains(prefix, ALLOC)
    ensures Find(prefix + ALLOC + rest, ALLOC, 0) == |prefix|
  {
    var text := prefix + ALLOC + rest;
    var k := |prefix|;
    assert text[k..k + 13] == ALLOC;
    forall i | 0 <= i < k
      ensures !At(text, ALLOC, i)
    {
      if i + 13 <= k {
        assert prefix[i..i + 13] == text[i..i + 13];
        assert !At(prefix, ALLOC, i);
      } else if i + 13 <= |text| {
        var s := text[i..i + 13];
        assert s[12] == text[i + 12] == ALLOC[i + 12 - k];
        assert ALLOC[i + 12 - k] != ALLOC[12];
      }
    }
    FindFirst(text, ALLOC, k);
  }

  lemma {:induction false} AllocLineText(lg: nat)
    ensures forall i :: 0 <= i < |AllocLine(lg)| ==> AllocLine(lg)[i] != 0
  {
  }

  lemma {:induction false} HeaderText(prefix: seq<byte>, lg: nat)
    requires Fits(prefix, lg)
    ensures Text(Header(prefix, lg)) == prefix + AllocLine(lg) && |Header(prefix, lg)| == HEADERLG
  {
    AllocLineText(lg);
    TextOfPadded(prefix + AllocLine(lg), HEADERLG);
  }

  /** The length of the bitmap comes back from the header. */
  lemma {:induction false} AllocRoundTrip(prefix: seq<byte>, lg: nat)
    requires Fits(prefix, lg)
    ensures NumberAfter(Header(prefix, lg), ALLOC) == Number(lg)
  {
    HeaderText(prefix, lg);
    var rest := Decimal(lg) + [NEWLINE];
    var text := prefix + AllocLine(lg);
    assert text == prefix + ALLOC + rest;
    AllocFirst(prefix, rest);
    assert text[|prefix| + |ALLOC|..] == rest;
    ScanDecimal(lg, [NEWLINE]);
  }

  lemma {:induction false} BlocksFirst(pre: seq<byte>, rest: seq<byte>)
    requires forall i :: 0 <= i < |pre| ==> pre[i] != BLOCKS[0]
    ensures Find(pre + BLOCKS + rest, BLOCKS, 0) == |pre|
  {
    var text := pre + BLOCKS + rest;
    var k := |pre|;
    assert text[k..k + 7] == BLOCKS;
    forall i | 0 <= i < k
      ensures !At(text, BLOCKS, i)
    {
      assert text[i..i + 7][0] == text[i] == pre[i];
    }
    FindFirst(text, BLOCKS, k);
  }

  /** The number of files comes back from the first header. */
  lemma {:induction false} BlocksRoundTrip(sectors: nat, blocks: nat, info: seq<byte>, lg: nat)
    requires Fits(FirstString(sectors, blocks, info), lg)
    ensures NumberAfter(Header(FirstString(sectors, blocks, info), lg), BLOCKS) == Number(blocks)
  {
    hide Find, Header, Decimal;
    var prefix := FirstString(sectors, blocks, info);
    HeaderText(prefix, lg);
    var pre, rest := SECTORS + Decimal(sectors) + [BAR], ([BAR] + info) + AllocLine(lg);
    var text := prefix + AllocLine(lg);
    Regroup(pre, BLOCKS, Decimal(blocks), [BAR] + info, AllocLine(lg));
    BlocksFirst(pre, Decimal(blocks) + rest);
    assert text[|pre| + |BLOCKS|..] == Decimal(blocks) + rest;
    ScanDecimal(blocks, rest);
  }

  lemma {:induction false} SectorsFirst(digits: seq<byte>, rest: seq<byte>)
    ensures var text := SECTORS + (digits + rest); Find(text, SECTORS, 0) == 0 && text[|SECTORS|..] == digits + rest
  {
    var text := SECTORS + (digits + rest);
    assert text[0..|SECTORS|] == SECTORS;
    FindFirst(text, SECTORS, 0);
  }

  /** And so does the number of sectors, which stands at the very beginning. */
  lemma {:induction false} SectorsRoundTrip(sectors: nat, blocks: nat, info: seq<byte>, lg: nat)
    requires Fits(FirstString(sectors, blocks, info), lg)
    ensures NumberAfter(Header(FirstString(sectors, blocks, info), lg), SECTORS) == Number(sectors)
  {
    hide Find, Header, Decimal, AllocLine, Fits;
    var prefix, line := FirstString(sectors, blocks, info), AllocLine(lg);
    HeaderText(prefix, lg);
    var more := BLOCKS + (Decimal(blocks) + ([BAR] + info));
    var rest := [BAR] + (more + line);
    assert prefix + line == SECTORS + (Decimal(sectors) + rest) by {
      Assoc(SECTORS, Decimal(sectors), [BAR]);
      Regroup(SECTORS, Decimal(sectors), [BAR], more, line);
      Assoc(SECTORS, Decimal(sectors) + [BAR], more);
      Assoc(Decimal(sectors), [BAR], more);
    }
    SectorsFirst(Decimal(sectors), rest);
    ScanDecimal(sectors, rest);
  }

  /** What C strings say. */
  function Ascii(s: string): (t: seq<byte>)
    requires forall i :: 0 <= i < |s| ==> s[i] as int < 128
    ensures |t| == |s|
  {
    seq(|s|, i requires 0 <= i < |s| => s[i] as int as byte)
  }

  lemma {:induction false} TagsAre()
    ensures SECTORS == Ascii("SECTORS=") && [BAR] + BLOCKS == Ascii("|BLOCKS=") && [BAR] == Ascii("|")
    ensures ALLOC == Ascii("ALLOCTABLELG=") && [NEWLINE] == Ascii("\n")
  {
  }

  /** The formats that are printed. */
  lemma {:induction false} FormatsAre(sectors: nat, blocks: nat, info: seq<byte>, lg: nat)
    ensures FirstString(sectors, blocks, info) == Ascii("SECTORS=") + Decimal(sectors) + Ascii("|BLOCKS=") + Decimal(blocks) + Ascii("|") + info
    ensures AllocLine(lg) == Ascii("ALLOCTABLELG=") + Decimal(lg) + Ascii("\n")
    ensures Decimal(24064) == Ascii("24064")
  {
    TagsAre();
    assert Decimal(24064) == [50, 52, 48, 54, 52];
    hide Ascii, Decimal;
  }

  lemma {:induction false} Assoc(a: seq<byte>, b: seq<byte>, c: seq<byte>)
    ensures (a + b) + c == a + (b + c)
  {
  }

  lemma {:induction false} Regroup(a: seq<byte>, b: seq<byte>, c: seq<byte>, d: seq<byte>, e: seq<byte>)
    ensures (a + (b + (c + d))) + e == a + (b + (c + (d + e)))
    ensures (a + (b + (c + d))) + e == a + b + (c + (d + e))
  {
    Assoc(a, b + (c + d), e);
    Assoc(b, c + d, e);
    Assoc(c, d, e);
    Assoc(a, b, c + (d + e));
  }

  /** Later headers say nothing about the number of files. */
  lemma {:induction false} NoBlocks(prefix: seq<byte>, lg: nat)
    requires Fits(prefix, lg) && !Contains(prefix, BLOCKS)
    ensures NumberAfter(Header(prefix, lg), BLOCKS) == NoNumber
  {
    HeaderText(prefix, lg);
    hide Header, AllocLine, Fits;
    var line := AllocLine(lg);
    var text := prefix + line;
    LastEquals(lg);
    forall i | 0 <= i <= |text|
      ensures !At(text, BLOCKS, i)
    {
      if i + 7 <= |prefix| {
        assert !At(prefix, BLOCKS, i);
      }
      NotAcross(prefix, line, i);
    }
  }

  lemma {:induction false} NotAcross(prefix: seq<byte>, line: seq<byte>, i: nat)
    requires |line| >= 13 && line[11] == 71 && forall j :: 0 <= j < |line| && line[j] == 61 ==> j == 12
    requires i + 7 <= |prefix| ==> !At(prefix, BLOCKS, i)
    ensures !At(prefix + line, BLOCKS, i)
  {
    var text := prefix + line;
    if i + 7 <= |prefix| {
      assert prefix[i..i + 7] == text[i..i + 7];
    } else if i + 7 <= |text| {
      var s := text[i..i + 7];
      assert s[6] == text[i + 6] == line[i + 6 - |prefix|];
      assert s[5] == text[i + 5];
    }
  }

  /** In the last line, an equals sign comes after a G. */
  lemma {:induction false} LastEquals(lg: nat)
    ensures var line := AllocLine(lg); forall j :: 0 <= j < |line| && line[j] == 61 ==> j == 12
    ensures |AllocLine(lg)| >= 13 && AllocLine(lg)[11] == 71
  {
    var line, d := AllocLine(lg), Decimal(lg);
    forall j | 13 <= j < |line|
      ensures line[j] != 61
    {
      assert line[j] == (d + [NEWLINE])[j - 13];
    }
  }
}
