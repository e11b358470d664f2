/** The trace of a buffer in the style of a hex dump, and the parser that undoes it. */
module HexDump {
  import opened Component

  type Digit = x: int | 0 <= x < 16

  /** A byte is kept as its two hexadecimal digits. */
  datatype Byte = Byte(high: Digit, low: Digit) {
    function Value(): (v: int)
      ensures 0 <= v < 256
    {
      16 * high + low
    }
  }

  /** Letters, marks, numbers, punctuation, symbols and the space, among the first 256 code points. */
  predicate IsPrint(b: Byte) {
    0x20 <= b.Value() <= 0x7E || (0xA1 <= b.Value() && b.Value() != 0xAD)
  }

  function HexDigit(d: Digit): char {
    if d < 10 then (d + '0' as int) as char else (d - 10 + 'A' as int) as char
  }

  function HexValue(c: char): Digit {
    if '0' <= c <= '9' then c as int - '0' as int
    else if 'A' <= c <= 'F' then c as int - 'A' as int + 10
    else 0
  }

  lemma HexDigitValue(d: Digit)
    ensures HexValue(HexDigit(d)) == d
    ensures HexDigit(d) != ' ' && HexDigit(d) != ':' && HexDigit(d) != '\n'
  {
  }

  function HexByte(b: Byte): (s: string)
    ensures |s| == 2
  {
    [HexDigit(b.high), HexDigit(b.low)]
  }

  /** A number in at least that many digits. */
  function Hex(n: nat, width: nat): string
    decreases n + width
  {
    if n == 0 && width == 0 then ""
    else Hex(n / 16, if width == 0 then 0 else width - 1) + [HexDigit(n % 16)]
  }

  function Unhex(s: string): nat {
    if s == "" then 0 else 16 * Unhex(s[..|s| - 1]) + HexValue(s[|s| - 1])
  }

  // ---------------------------------------------------------------- the dump

  /** The first two bytes of what is left of a line. */
  function Group(chunk: seq<Byte>): (s: string)
    ensures |s| == 5
  {
    if |chunk| >= 2 then HexByte(chunk[0]) + HexByte(chunk[1]) + " "
    else if |chunk| == 1 then HexByte(chunk[0]) + "   "
    else "     "
  }

  function From(chunk: seq<Byte>, i: nat): seq<Byte> {
    if i <= |chunk| then chunk[i..] else []
  }

  function Groups(chunk: seq<Byte>, n: nat): (s: string)
    ensures |s| == 5 * n
    decreases n, chunk
  {
    if n == 0 then "" else Group(chunk) + Groups(From(chunk, 2), n - 1)
  }

  function Text(chunk: seq<Byte>): (s: string)
    ensures |s| == |chunk|
  {
    if chunk == [] then ""
    else
      var last := chunk[|chunk| - 1];
      Text(chunk[..|chunk| - 1]) + if IsPrint(last) then [last.Value() as char] else "."
  }

  function Line(offset: nat, chunk: seq<Byte>): string {
    Hex(offset, 8) + ": " + Groups(chunk, 8) + Text(chunk)
  }

  function Chunk(buffer: seq<Byte>, offset: nat): seq<Byte>
    requires offset <= |buffer|
  {
    if |buffer| - offset >= 16 then buffer[offset..offset + 16] else buffer[offset..]
  }

  /** The lines from an offset on. */
  function Dump(buffer: seq<Byte>, offset: nat): string
    requires offset <= |buffer|
    decreases |buffer| - offset
  {
    if offset == |buffer| then ""
    else
      var chunk := Chunk(buffer, offset);
      Line(offset, chunk) + "\n" + Dump(buffer, offset + |chunk|)
  }

  method CommTrace(buffer: seq<Byte>) returns (sb: string)
    ensures sb == Dump(buffer, 0)
  {
    sb := "";
    var bytesLeft := |buffer|;
    ghost var dump := Dump(buffer, 0);
    ghost var rest := dump;
    while bytesLeft > 0
      invariant 0 <= bytesLeft <= |buffer|
      invariant IsRest(buffer, bytesLeft, rest) && sb + rest == dump
      decreases bytesLeft
    {
      var line, n, next := NextLine(buffer, bytesLeft, rest);
      Appended(sb, line, next);
      sb, rest := sb + line, next;
      bytesLeft := bytesLeft - n;
    }
    assert sb + "" == sb;
  }

  /** The dump of the bytes that are left. */
  predicate IsRest(buffer: seq<Byte>, bytesLeft: nat, rest: string)
    requires bytesLeft <= |buffer|
  {
    rest == Dump(buffer, |buffer| - bytesLeft)
  }

  lemma Appended(before: string, line: string, rest: string)
    ensures before + line + rest == before + (line + rest)
  {
  }

  /** The next line, and how many bytes it shows. */
  method NextLine(buffer: seq<Byte>, bytesLeft: nat, ghost rest: string)
    returns (line: string, n: nat, ghost next: string)
    requires 0 < bytesLeft <= |buffer| && IsRest(buffer, bytesLeft, rest)
    ensures 0 < n <= bytesLeft && IsRest(buffer, bytesLeft - n, next) && rest == line + next
  {
    var offset := |buffer| - bytesLeft;
    var bytesThisRound: seq<Byte>;
    if bytesLeft >= 16 {
      bytesThisRound := buffer[offset..offset + 16];
    } else {
      bytesThisRound := buffer[offset..];
    }
    line := PrintLine(offset, bytesThisRound);
    line := line + "\n";
    n := |bytesThisRound|;
    next := Dump(buffer, offset + n);
  }

  method PrintLine(offset: nat, chunk: seq<Byte>) returns (line: string)
    ensures line == Line(offset, chunk)
  {
    line := Hex(offset, 8);
    line := line + ": ";
    var groups := PrintGroups(chunk, 16, 8);
    line := line + groups;
    var text := PrintText(chunk);
    line := line + text;
  }

  method PrintGroup(chunk: seq<Byte>, i: nat) returns (group: string)
    ensures group == Group(From(chunk, i))
  {
    var x := |chunk| - i;
    if x >= 2 {
      group := HexByte(chunk[i]) + HexByte(chunk[i + 1]) + " ";
    } else if x == 1 {
      group := HexByte(chunk[i]) + "   ";
    } else {
      group := "     ";
    }
  }

  method PrintGroups(chunk: seq<Byte>, width: nat, ghost n: nat) returns (s: string)
    requires width == 2 * n
    ensures s == Groups(chunk, n)
  {
    s := "";
    var i := 0;
    ghost var left := n;
    assert From(chunk, 0) == chunk;
    while i < width
      invariant i + 2 * left == width && left >= 0
      invariant s + Groups(From(chunk, i), left) == Groups(chunk, n)
    {
      var group := PrintGroup(chunk, i);
      GroupAppended(s, chunk, i, left);
      s := s + group;
      i := i + 2;
      left := left - 1;
    }
    assert s + "" == s;
  }

  lemma GroupAppended(s: string, chunk: seq<Byte>, i: nat, left: nat)
    requires left > 0
    ensures s + Group(From(chunk, i)) + Groups(From(chunk, i + 2), left - 1) == s + Groups(From(chunk, i), left)
  {
    assert From(From(chunk, i), 2) == From(chunk, i + 2);
  }

  method PrintText(chunk: seq<Byte>) returns (s: string)
    ensures s == Text(chunk)
  {
    s := "";
    for i := 0 to |chunk|
      invariant s == Text(chunk[..i])
    {
      assert chunk[..i + 1][..i] == chunk[..i];
      if IsPrint(chunk[i]) {
        s := s + [chunk[i].Value() as char];
      } else {
        s := s + ".";
      }
    }
    assert chunk[..|chunk|] == chunk;
  }

  // ---------------------------------------------------------------- reading a dump

  function IndexOf(s: string, c: char): (i: nat)
    ensures i <= |s| && (i < |s| ==> s[i] == c) && forall k :: 0 <= k < i ==> s[k] != c
  {
    if s == "" || s[0] == c then 0 else 1 + IndexOf(s[1..], c)
  }

  /** The bytes of the groups, up to the first blank. */
  function ReadGroups(s: string): seq<Byte> {
    if |s| < 5 || s[0] == ' ' then []
    else
      var first := Byte(HexValue(s[0]), HexValue(s[1]));
      if s[2] == ' ' then [first]
      else [first, Byte(HexValue(s[2]), HexValue(s[3]))] + ReadGroups(s[5..])
  }

  datatype Parsed = Parsed(offset: nat, bytes: seq<Byte>)

  /** A line gives its offset and its bytes; what follows the groups is not looked at. */
  function ReadLine(line: string): Option<Parsed> {
    var colon := IndexOf(line, ':');
    if |line| < colon + 42 then None else Some(Parsed(Unhex(line[..colon]), ReadGroups(line[colon + 2..colon + 42])))
  }

  /** What the lines of a text say; the last one must be ended, too. */
  function ReadLines(text: string): seq<Option<Parsed>>
    decreases |text|
  {
    if text == "" then []
    else
      var end := IndexOf(text, '\n');
      if end == |text| then [None] else [ReadLine(text[..end])] + ReadLines(text[end + 1..])
  }

  /** The bytes of lines that start where the first n bytes end. */
  function Assemble(lines: seq<Option<Parsed>>, n: nat): Option<seq<Byte>>
    decreases |lines|
  {
    if lines == [] then Some([])
    else if lines[0].None? || lines[0].value.offset != n then None
    else
      match Assemble(lines[1..], n + |lines[0].value.bytes|)
      case None => None
      case Some(rest) => Some(lines[0].value.bytes + rest)
  }

  function Undump(text: string): Option<seq<Byte>> {
    Assemble(ReadLines(text), 0)
  }

  function Lines(text: string): nat {
    if text == "" then 0 else Lines(text[..|text| - 1]) + if text[|text| - 1] == '\n' then 1 else 0
  }

  // ---------------------------------------------------------------- round trip

  predicate Plain(s: string) {
    forall i :: 0 <= i < |s| ==> s[i] != '\n' && s[i] != ':'
  }

  lemma UnhexStep(s: string, d: Digit)
    ensures Unhex(s + [HexDigit(d)]) == 16 * Unhex(s) + d
  {
    HexDigitValue(d);
    assert (s + [HexDigit(d)])[..|s|] == s;
  }

  lemma {:induction false} UnhexHex(n: nat, width: nat)
    ensures Unhex(Hex(n, width)) == n && Plain(Hex(n, width))
    decreases n + width
  {
    if n != 0 || width != 0 {
      var high := Hex(n / 16, if width == 0 then 0 else width - 1);
      UnhexHex(n / 16, if width == 0 then 0 else width - 1);
      UnhexStep(high, n % 16);
      HexDigitValue(n % 16);
      assert Hex(n, width) == high + [HexDigit(n % 16)];
    }
  }

  lemma GroupIsPlain(chunk: seq<Byte>)
    ensures Plain(Group(chunk))
  {
    if |chunk| >= 1 {
      HexByteIsPlain(chunk[0]);
    }
    if |chunk| >= 2 {
      HexByteIsPlain(chunk[1]);
    }
  }

  lemma HexByteIsPlain(b: Byte)
    ensures Plain(HexByte(b))
  {
    HexDigitValue(b.high);
    HexDigitValue(b.low);
  }

  lemma {:induction false} GroupsArePlain(chunk: seq<Byte>, n: nat)
    ensures Plain(Groups(chunk, n))
    decreases n
  {
    if n != 0 {
      GroupIsPlain(chunk);
      GroupsArePlain(From(chunk, 2), n - 1);
    }
  }

  lemma HexByteValue(b: Byte)
    ensures Byte(HexValue(HexByte(b)[0]), HexValue(HexByte(b)[1])) == b && HexByte(b)[0] != ' '
  {
    HexDigitValue(b.high);
    HexDigitValue(b.low);
  }

  lemma {:induction false} ReadBack(chunk: seq<Byte>, n: nat)
    requires |chunk| <= 2 * n
    ensures ReadGroups(Groups(chunk, n)) == chunk
    decreases n
  {
    if chunk != [] {
      HexByteValue(chunk[0]);
      if |chunk| >= 2 {
        HexByteValue(chunk[1]);
        ReadBack(chunk[2..], n - 1);
        assert Groups(chunk, n)[5..] == Groups(chunk[2..], n - 1);
      }
    }
  }

  lemma {:induction false} IndexAfter(before: string, c: char, after: string)
    requires c !in before
    ensures IndexOf(before + [c] + after, c) == |before|
  {
    assert (before + [c] + after)[|before|] == c;
    assert forall k :: 0 <= k < |before| ==> (before + [c] + after)[k] == before[k];
  }

  lemma {:induction false} TextIsOneLine(chunk: seq<Byte>)
    ensures '\n' !in Text(chunk)
  {
    if chunk != [] {
      TextIsOneLine(chunk[..|chunk| - 1]);
    }
  }

  /** The text column shows the bytes that print and a dot for each of the others. */
  lemma {:induction false} TextShows(chunk: seq<Byte>, k: nat)
    requires k < |chunk|
    ensures Text(chunk)[k] == if IsPrint(chunk[k]) then chunk[k].Value() as char else '.'
  {
    if k < |chunk| - 1 {
      TextShows(chunk[..|chunk| - 1], k);
    }
  }

  lemma LineIsOne(offset: nat, chunk: seq<Byte>)
    ensures '\n' !in Line(offset, chunk)
  {
    UnhexHex(offset, 8);
    GroupsArePlain(chunk, 8);
    TextIsOneLine(chunk);
  }

  lemma ReadLineBack(offset: nat, chunk: seq<Byte>)
    requires |chunk| <= 16
    ensures ReadLine(Line(offset, chunk)) == Some(Parsed(offset, chunk))
  {
    var digits, groups, text := Hex(offset, 8), Groups(chunk, 8), Text(chunk);
    var line := Line(offset, chunk);
    UnhexHex(offset, 8);
    assert line == digits + [':'] + (" " + groups + text);
    IndexAfter(digits, ':', " " + groups + text);
    assert line[..|digits|] == digits;
    assert line[|digits| + 2..|digits| + 42] == groups;
    ReadBack(chunk, 8);
  }

  lemma SplitLine(line: string, rest: string)
    requires '\n' !in line
    ensures var text := line + "\n" + rest;
      IndexOf(text, '\n') == |line| < |text| && text[..|line|] == line && text[|line| + 1..] == rest
  {
    assert "\n" == ['\n'];
    IndexAfter(line, '\n', rest);
  }

  /** What the lines of a dump are to say. */
  function Parts(buffer: seq<Byte>, offset: nat): seq<Option<Parsed>>
    requires offset <= |buffer|
    decreases |buffer| - offset
  {
    if offset == |buffer| then []
    else
      var chunk := Chunk(buffer, offset);
      [Some(Parsed(offset, chunk))] + Parts(buffer, offset + |chunk|)
  }

  lemma ReadFirstLine(line: string, rest: string, p: Parsed)
    requires '\n' !in line && ReadLine(line) == Some(p)
    ensures ReadLines(line + "\n" + rest) == [Some(p)] + ReadLines(rest)
  {
    SplitLine(line, rest);
  }

  lemma {:induction false} DumpLines(buffer: seq<Byte>, offset: nat)
    requires offset <= |buffer|
    ensures ReadLines(Dump(buffer, offset)) == Parts(buffer, offset)
    decreases |buffer| - offset
  {
    if offset < |buffer| {
      var chunk := Chunk(buffer, offset);
      LineIsOne(offset, chunk);
      ReadLineBack(offset, chunk);
      ReadFirstLine(Line(offset, chunk), Dump(buffer, offset + |chunk|), Parsed(offset, chunk));
      DumpLines(buffer, offset + |chunk|);
    }
  }

  lemma AssembleFirst(p: Parsed, rest: seq<Option<Parsed>>)
    requires Assemble(rest, p.offset + |p.bytes|).Some?
    ensures Assemble([Some(p)] + rest, p.offset) == Some(p.bytes + Assemble(rest, p.offset + |p.bytes|).value)
  {
    assert ([Some(p)] + rest)[1..] == rest;
  }

  lemma {:induction false} AssembleParts(buffer: seq<Byte>, offset: nat)
    requires offset <= |buffer|
    ensures Assemble(Parts(buffer, offset), offset) == Some(buffer[offset..])
    decreases |buffer| - offset
  {
    if offset < |buffer| {
      var chunk := Chunk(buffer, offset);
      AssembleParts(buffer, offset + |chunk|);
      AssembleFirst(Parsed(offset, chunk), Parts(buffer, offset + |chunk|));
      assert chunk + buffer[offset + |chunk|..] == buffer[offset..];
    } else {
      assert buffer[offset..] == [];
    }
  }

  /** The dump of every buffer, however long, can be read back. */
  lemma UndumpDump(buffer: seq<Byte>)
    ensures Undump(Dump(buffer, 0)) == Some(buffer)
  {
    DumpLines(buffer, 0);
    AssembleParts(buffer, 0);
  }

  lemma {:induction false} LinesAdd(a: string, b: string)
    ensures Lines(a + b) == Lines(a) + Lines(b)
    decreases |b|
  {
    if b == "" {
      assert a + b == a;
    } else {
      assert (a + b)[..|a + b| - 1] == a + b[..|b| - 1];
      LinesAdd(a, b[..|b| - 1]);
    }
  }

  lemma {:induction false} NoLine(s: string)
    requires '\n' !in s
    ensures Lines(s) == 0
  {
    if s != "" {
      NoLine(s[..|s| - 1]);
    }
  }

  lemma LineAdds(offset: nat, chunk: seq<Byte>, rest: string)
    ensures Lines(Line(offset, chunk) + "\n" + rest) == 1 + Lines(rest)
  {
    var line := Line(offset, chunk);
    LineIsOne(offset, chunk);
    NoLine(line);
    assert (line + "\n")[..|line|] == line;
    LinesAdd(line + "\n", rest);
  }

  /** Sixteen bytes to a line, the last line possibly shorter. */
  lemma {:induction false} LineCount(buffer: seq<Byte>, offset: nat)
    requires offset <= |buffer|
    ensures Lines(Dump(buffer, offset)) == (|buffer| - offset + 15) / 16
    decreases |buffer| - offset
  {
    if offset < |buffer| {
      var chunk := Chunk(buffer, offset);
      var rest := Dump(buffer, offset + |chunk|);
      LineAdds(offset, chunk, rest);
      LineCount(buffer, offset + |chunk|);
      OneLineLess(|buffer| - offset, |chunk|);
    }
  }

  // ---------------------------------------------------------------- the columns of a line

  const DIGITS := "0123456789ABCDEF"

  lemma DigitShows(d: Digit)
    ensures HexDigit(d) == DIGITS[d]
  {
  }

  function Shifted(n: nat, k: nat): nat {
    if k == 0 then n else Shifted(n / 16, k - 1)
  }

  function Power(k: nat): (p: nat)
    ensures p > 0
  {
    if k == 0 then 1 else 16 * Power(k - 1)
  }

  /** A number that fits is shown in exactly that many digits, the most significant one first. */
  lemma {:induction false} HexShows(n: nat, width: nat, k: nat)
    requires n < Power(width) && k < width
    ensures |Hex(n, width)| == width && Hex(n, width)[width - 1 - k] == DIGITS[Shifted(n, k) % 16]
  {
    var rest := width - 1;
    assert Hex(n, width) == Hex(n / 16, rest) + [HexDigit(n % 16)];
    DigitShows(n % 16);
    if rest == 0 {
      assert n / 16 == 0;
    } else {
      assert n / 16 < Power(rest);
      HexShows(n / 16, rest, if k == 0 then 0 else k - 1);
    }
  }

  lemma GroupsSplit(chunk: seq<Byte>, n: nat)
    requires n > 0
    ensures Groups(chunk, n)[..5] == Group(chunk)
    ensures |chunk| >= 2 ==> Groups(chunk, n)[5..] == Groups(chunk[2..], n - 1)
  {
    var first, rest := Group(chunk), Groups(From(chunk, 2), n - 1);
    assert Groups(chunk, n) == first + rest;
  }

  lemma GroupShows(chunk: seq<Byte>, r: nat)
    requires r < 2 && r < |chunk|
    ensures Group(chunk)[2 * r] == DIGITS[chunk[r].high] && Group(chunk)[2 * r + 1] == DIGITS[chunk[r].low]
  {
    DigitShows(chunk[r].high);
    DigitShows(chunk[r].low);
  }

  /** Two bytes to a group, five characters to a group. */
  lemma {:induction false} GroupsShow(chunk: seq<Byte>, n: nat, g: nat, r: nat)
    requires 2 * g + r < |chunk| && g < n && r < 2
    ensures Groups(chunk, n)[5 * g + 2 * r] == DIGITS[chunk[2 * g + r].high]
    ensures Groups(chunk, n)[5 * g + 2 * r + 1] == DIGITS[chunk[2 * g + r].low]
    decreases n
  {
    GroupsSplit(chunk, n);
    if g == 0 {
      GroupShows(chunk, r);
    } else {
      var before := g - 1;
      GroupsShow(chunk[2..], n - 1, before, r);
      var x := 5 * before + 2 * r;
      assert Groups(chunk, n)[5..][x] == Groups(chunk, n)[x + 5];
      assert Groups(chunk, n)[5..][x + 1] == Groups(chunk, n)[x + 6];
      assert chunk[2..][2 * before + r] == chunk[2 * g + r];
    }
  }

  /** A full line: eight digits for the offset, a colon and a blank, then the bytes in groups of two, and the text
      column from column 50 on, in which a byte that does not print is a dot. */
  lemma LineLayout(offset: nat, chunk: seq<Byte>, g: nat, r: nat)
    requires offset < 0x1_0000_0000 && 2 * g + r < |chunk| <= 16 && r < 2
    ensures var line, i, at := Line(offset, chunk), 2 * g + r, 10 + 5 * g + 2 * r;
      && |line| == 50 + |chunk| && line[8] == ':' && line[9] == ' '
      && (forall k :: 0 <= k < 8 ==> line[7 - k] == DIGITS[Shifted(offset, k) % 16])
      && line[at] == DIGITS[chunk[i].high] && line[at + 1] == DIGITS[chunk[i].low]
      && var value := chunk[i].Value();
         line[50 + i] == if 0x20 <= value < 0x7F || (0xA0 < value && value != 0xAD) then value as char else '.'
  {
    var digits, groups, text := Hex(offset, 8), Groups(chunk, 8), Text(chunk);
    OffsetShows(offset);
    GroupsShow(chunk, 8, g, r);
    TextShows(chunk, 2 * g + r);
    assert Line(offset, chunk) == digits + ": " + groups + text;
  }

  lemma OffsetShows(offset: nat)
    requires offset < 0x1_0000_0000
    ensures |Hex(offset, 8)| == 8
    ensures forall k :: 0 <= k < 8 ==> Hex(offset, 8)[7 - k] == DIGITS[Shifted(offset, k) % 16]
  {
    assert Power(2) == 256 && Power(4) == 65536 && Power(6) == 0x100_0000 && Power(8) == 0x1_0000_0000;
    HexShows(offset, 8, 0);
    forall k | 0 <= k < 8 ensures Hex(offset, 8)[7 - k] == DIGITS[Shifted(offset, k) % 16] {
      HexShows(offset, 8, k);
    }
  }

  lemma OneLineLess(left: nat, n: nat)
    requires left > 0 && n == if left >= 16 then 16 else left
    ensures (left + 15) / 16 == 1 + (left - n + 15) / 16
  {
  }
}
