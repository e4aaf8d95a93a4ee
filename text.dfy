/**
 * The text the receiver puts on its display (displayWriteData in
 * display.cpp) and the number parsing of its serial commands (atoi in
 * main.cpp), with the inverse parsers that show each text can be read back.
 */
module Text {
  import opened Platform

  predicate IsDigit(c: char)
  {
    '0' <= c <= '9'
  }

  /** isspace in the C locale: space, \t, \n, \v, \f and \r. */
  predicate IsSpace(c: char)
  {
    c == ' ' || 9 <= c as int <= 13
  }

  predicate AllDigits(s: string)
  {
    forall i :: 0 <= i < |s| ==> IsDigit(s[i])
  }

  function DigitChar(d: nat): (c: char)
    requires d < 10
    ensures IsDigit(c)
  {
    ('0' as int + d) as char
  }

  function DigitValue(c: char): nat
  {
    if IsDigit(c) then c as int - '0' as int else 0
  }

  /** printf's "%d" of a non-negative value: its decimal digits, without leading zeros. */
  function Dec(n: nat): (s: string)
    ensures 1 <= |s| && AllDigits(s)
    ensures s[0] == '0' <==> n == 0
    decreases n
  {
    if n < 10 then [DigitChar(n)] else Dec(n / 10) + [DigitChar(n % 10)]
  }

  /** The number a string of decimal digits denotes (any other character counts as 0). */
  function Value(s: string): nat
  {
    if s == [] then 0 else Value(s[..|s| - 1]) * 10 + DigitValue(s[|s| - 1])
  }

  function Pow10(k: nat): (p: nat)
    ensures 1 <= p
  {
    if k == 0 then 1 else 10 * Pow10(k - 1)
  }

  /** Reading the decimal text of a number gives the number back. */
  lemma {:induction false} ValueOfDec(n: nat)
    ensures Value(Dec(n)) == n
    decreases n
  {
    if n >= 10 {
      ValueOfDec(n / 10);
      assert Dec(n)[..|Dec(n)| - 1] == Dec(n / 10);
    }
  }

  /** A number below 10^k takes at most k digits. */
  lemma {:induction false} DecLengthAtMost(n: nat, k: nat)
    requires 1 <= k && n < Pow10(k)
    ensures |Dec(n)| <= k
    decreases n
  {
    if n >= 10 {
      assert Pow10(k) == 10 * Pow10(k - 1);
      DecLengthAtMost(n / 10, k - 1);
    }
  }

  /** A number of at least 10^k takes more than k digits. */
  lemma {:induction false} DecLengthAbove(n: nat, k: nat)
    requires Pow10(k) <= n
    ensures k < |Dec(n)|
    decreases n
  {
    if 0 < k {
      DecLengthAbove(n / 10, k - 1);
    }
  }

  function Zeros(k: nat): (z: string)
  {
    seq(k, _ => '0')
  }

  /** printf's "%0<width>d": the decimal text left-padded with zeros to width characters. */
  function ZeroPad(n: nat, width: nat): string
  {
    var digits := Dec(n);
    if |digits| >= width then digits else Zeros(width - |digits|) + digits
  }

  lemma {:induction false} ValueOfZeros(k: nat)
    ensures Value(Zeros(k)) == 0
  {
    if 0 < k {
      ValueOfZeros(k - 1);
      assert Zeros(k)[..k - 1] == Zeros(k - 1);
    }
  }

  /** Leading zeros do not change the value of a digit string. */
  lemma {:induction false} ValueIgnoresLeadingZeros(k: nat, s: string)
    ensures Value(Zeros(k) + s) == Value(s)
    decreases |s|
  {
    if s == [] {
      ValueOfZeros(k);
      assert Zeros(k) + s == Zeros(k);
    } else {
      var init := s[..|s| - 1];
      ValueIgnoresLeadingZeros(k, init);
      assert (Zeros(k) + s)[..|Zeros(k) + s| - 1] == Zeros(k) + init;
    }
  }

  /** "%0<width>d" of a number below 10^width is exactly width digits that read back as the number. */
  lemma ZeroPadFixedWidth(n: nat, width: nat)
    requires 1 <= width && n < Pow10(width)
    ensures |ZeroPad(n, width)| == width
    ensures AllDigits(ZeroPad(n, width))
    ensures Value(ZeroPad(n, width)) == n
  {
    DecLengthAtMost(n, width);
    ValueOfDec(n);
    if |Dec(n)| < width {
      ValueIgnoresLeadingZeros(width - |Dec(n)|, Dec(n));
    }
  }

  // ---------------------------------------------------------------------------
  // atoi, as handle_usart_cmd applies it to the argument of "channel"

  function SkipSpaces(s: string): string
  {
    if s != [] && IsSpace(s[0]) then SkipSpaces(s[1..]) else s
  }

  function LeadingDigits(s: string): string
  {
    if s != [] && IsDigit(s[0]) then [s[0]] + LeadingDigits(s[1..]) else []
  }

  /**
   * atoi: leading white space, an optional sign, then the longest run of
   * digits; no digits gives 0. (A value outside the range of int, where C
   * leaves the result undefined, is kept as its mathematical value.)
   */
  function Atoi(s: string): int
  {
    var t := SkipSpaces(s);
    if t != [] && t[0] == '-' then -(Value(LeadingDigits(t[1..])) as int)
    else if t != [] && t[0] == '+' then Value(LeadingDigits(t[1..]))
    else Value(LeadingDigits(t))
  }

  lemma {:induction false} LeadingDigitsOfDigits(s: string)
    requires AllDigits(s)
    ensures LeadingDigits(s) == s
  {
    if s != [] {
      LeadingDigitsOfDigits(s[1..]);
    }
  }

  /** atoi reads back what "%d" wrote, also with a minus sign in front. */
  lemma AtoiOfDec(n: nat)
    ensures Atoi(Dec(n)) == n
    ensures Atoi("-" + Dec(n)) == -(n as int)
  {
    LeadingDigitsOfDigits(Dec(n));
    ValueOfDec(n);
    assert ("-" + Dec(n))[1..] == Dec(n);
  }

  // ---------------------------------------------------------------------------
  // Splitting text at a separator: the reader's side of the texts below

  /** The pieces of s between occurrences of sep (one more piece than separators). */
  function Split(s: string, sep: char): (fields: seq<string>)
    ensures 1 <= |fields|
    ensures forall i :: 0 <= i < |fields| ==> sep !in fields[i]
  {
    if s == [] then [""]
    else
      var rest := Split(s[1..], sep);
      if s[0] == sep then [""] + rest else [[s[0]] + rest[0]] + rest[1..]
  }

  /** Splitting yields exactly one more piece than there are separators. */
  lemma {:induction false} SplitPieceCount(s: string, sep: char)
    ensures |Split(s, sep)| == 1 + multiset(s)[sep]
  {
    if s != [] {
      SplitPieceCount(s[1..], sep);
      assert s == [s[0]] + s[1..];
      assert multiset(s) == multiset{s[0]} + multiset(s[1..]);
    }
  }

  lemma {:induction false} SplitAppend(x: string, y: string, sep: char)
    ensures Split(x + [sep] + y, sep) == Split(x, sep) + Split(y, sep)
    decreases |x|
  {
    var s := x + [sep] + y;
    if x == [] {
      assert s[0] == sep && s[1..] == y;
    } else {
      assert s[0] == x[0] && s[1..] == x[1..] + [sep] + y;
      SplitAppend(x[1..], y, sep);
      var tail, left, right := Split(s[1..], sep), Split(x[1..], sep), Split(y, sep);
      assert tail == left + right;
      if x[0] != sep {
        assert tail[0] == left[0];
        assert tail[1..] == left[1..] + right;
      }
    }
  }

  lemma {:induction false} SplitWithoutSeparator(y: string, sep: char)
    requires sep !in y
    ensures Split(y, sep) == [y]
  {
    if y != [] {
      SplitWithoutSeparator(y[1..], sep);
      assert [y[0]] + y[1..] == y;
    }
  }

  // ---------------------------------------------------------------------------
  // The header line: "F=%dMhz  %03dB=%d P=%05d"

  function HeaderText(channel: uint8, battery: uint16, count: uint16): string
  {
    "F=" + Dec(2400 + channel) + "Mhz  " + ZeroPad(channel, 3) + "B=" + Dec(battery)
      + " P=" + ZeroPad(count, 5)
  }

  /**
   * The header fits the 100-byte buffer, and its frequency, channel and count
   * fields sit at fixed places and read back as the values written.
   */
  lemma HeaderLayout(channel: uint8, battery: uint16, count: uint16)
    ensures var h := HeaderText(channel, battery, count);
      && 25 <= |h| <= 29 && |h| < BUFFER_SIZE
      && h[..2] == "F=" && h[6..11] == "Mhz  " && h[14..16] == "B=" && h[|h| - 8..|h| - 5] == " P="
      && AllDigits(h[2..6]) && Value(h[2..6]) == 2400 + channel
      && AllDigits(h[11..14]) && Value(h[11..14]) == channel
      && AllDigits(h[16..|h| - 8]) && Value(h[16..|h| - 8]) == battery
      && h[16..|h| - 8] == Dec(battery)
      && AllDigits(h[|h| - 5..]) && Value(h[|h| - 5..]) == count
  {
    var mhz, ch, bat, cnt := Dec(2400 + channel), ZeroPad(channel, 3), Dec(battery), ZeroPad(count, 5);
    HeaderFieldWidths(channel, battery, count);
    ValueOfDec(2400 + channel);
    ValueOfDec(battery);
    HeaderFields(mhz, ch, bat, cnt);
  }

  /** The widths and values of the four numeric fields of the header. */
  lemma HeaderFieldWidths(channel: uint8, battery: uint16, count: uint16)
    ensures |Dec(2400 + channel)| == 4
    ensures |ZeroPad(channel, 3)| == 3 && AllDigits(ZeroPad(channel, 3)) && Value(ZeroPad(channel, 3)) == channel
    ensures |Dec(battery)| <= 5
    ensures |ZeroPad(count, 5)| == 5 && AllDigits(ZeroPad(count, 5)) && Value(ZeroPad(count, 5)) == count
  {
    assert Pow10(3) == 1000 && Pow10(4) == 10000 && Pow10(5) == 100000;
    DecLengthAtMost(2400 + channel, 4);
    DecLengthAbove(2400 + channel, 3);
    ZeroPadFixedWidth(channel, 3);
    DecLengthAtMost(battery, 5);
    ZeroPadFixedWidth(count, 5);
  }

  /** Where each field of "F=<mhz>Mhz  <ch>B=<bat> P=<cnt>" sits, for fields of the header's widths. */
  lemma HeaderFields(mhz: string, ch: string, bat: string, cnt: string)
    requires |mhz| == 4 && |ch| == 3 && |cnt| == 5
    ensures var h := "F=" + mhz + "Mhz  " + ch + "B=" + bat + " P=" + cnt;
      && |h| == 24 + |bat|
      && h[..2] == "F=" && h[2..6] == mhz && h[6..11] == "Mhz  " && h[11..14] == ch && h[14..16] == "B="
      && h[16..|h| - 8] == bat && h[|h| - 8..|h| - 5] == " P=" && h[|h| - 5..] == cnt
  {
    // the header as successive prefixes, each ending in one field
    var p1 := "F=" + mhz;
    var p2 := p1 + "Mhz  ";
    var p3 := p2 + ch;
    var p4 := p3 + "B=";
    var p5 := p4 + bat;
    var p6 := p5 + " P=";
    var h := p6 + cnt;
    FieldOfPrefix(h, p6, cnt);
    FieldOfPrefix(h, p5, " P=");
    FieldOfPrefix(h, p4, bat);
    FieldOfPrefix(h, p3, "B=");
    FieldOfPrefix(h, p2, ch);
    FieldOfPrefix(h, p1, "Mhz  ");
    FieldOfPrefix(h, "F=", mhz);
    FieldOfPrefix(h, [], "F=");
  }

  /**
   * "%05d" applied to receive_count as avr-gcc compiles it: int is 16 bits
   * wide there, so printf reads the uint16_t back as a signed value and
   * counts from 32768 on come out negative, the minus sign taking one of the
   * five places.
   */
  function PrintedCount(count: uint16): string
  {
    if count < 0x8000 then ZeroPad(count, 5) else "-" + ZeroPad(0x1_0000 - count, 4)
  }

  /** The header line exactly as the firmware prints it. */
  function HeaderTextAsPrinted(channel: uint8, battery: uint16, count: uint16): string
  {
    "F=" + Dec(2400 + channel) + "Mhz  " + ZeroPad(channel, 3) + "B=" + Dec(battery)
      + " P=" + PrintedCount(count)
  }

  /** Below 32768 packets the printed header is the intended one. */
  lemma HeaderAsPrintedBelowHalfRange(channel: uint8, battery: uint16, count: uint16)
    requires count < 0x8000
    ensures HeaderTextAsPrinted(channel, battery, count) == HeaderText(channel, battery, count)
  {
  }

  /** From 32768 packets on, the printed count is negative and differs from the intended header. */
  lemma HeaderAsPrintedFromHalfRange(channel: uint8, battery: uint16, count: uint16)
    requires 0x8000 <= count
    ensures PrintedCount(count)[0] == '-'
    ensures HeaderTextAsPrinted(channel, battery, count) != HeaderText(channel, battery, count)
  {
    var p := "F=" + Dec(2400 + channel) + "Mhz  " + ZeroPad(channel, 3) + "B=" + Dec(battery) + " P=";
    var intended, printed := ZeroPad(count, 5), PrintedCount(count);
    assert Pow10(5) == 100000 by {
      assert Pow10(1) == 10;
    }
    ZeroPadFixedWidth(count, 5);
    assert HeaderText(channel, battery, count) == p + intended;
    assert HeaderTextAsPrinted(channel, battery, count) == p + printed;
    assert (p + intended)[|p|] == intended[0];
    assert (p + printed)[|p|] == printed[0];
  }

  /**
   * The header as printed differs from the intended one only in the count
   * field, which takes five or six places, so it still fits the buffer.
   */
  lemma HeaderAsPrintedFits(channel: uint8, battery: uint16, count: uint16)
    ensures var printed, intended := HeaderTextAsPrinted(channel, battery, count), HeaderText(channel, battery, count);
      && |intended| <= |printed| <= |intended| + 1 && |printed| <= 30 && |printed| < BUFFER_SIZE
      && printed[..|intended| - 5] == intended[..|intended| - 5]
  {
    var p := "F=" + Dec(2400 + channel) + "Mhz  " + ZeroPad(channel, 3) + "B=" + Dec(battery) + " P=";
    HeaderFieldWidths(channel, battery, count);
    assert |p| <= 24;
    if 0x8000 <= count {
      assert Pow10(5) == 100000 by {
        assert Pow10(1) == 10;
      }
      DecLengthAtMost(0x1_0000 - count, 5);
    }
    assert 5 <= |PrintedCount(count)| <= 6;
    PrefixOfAppend(p, ZeroPad(count, 5));
    PrefixOfAppend(p, PrintedCount(count));
  }

  lemma PrefixOfAppend(p: string, q: string)
    ensures (p + q)[..|p|] == p
  {
  }

  /** After 65535 packets the header ends in " P=-0001" instead of " P=65535". */
  lemma HeaderAsPrintedExample()
    ensures var h := HeaderTextAsPrinted(3, 0, 0xFFFF);
      h[|h| - 8..] == " P=-0001"
    ensures var h := HeaderText(3, 0, 0xFFFF);
      h[|h| - 8..] == " P=65535"
  {
    var p := "F=" + Dec(2403) + "Mhz  " + ZeroPad(3, 3) + "B=" + Dec(0);
    CountFieldsAt65535();
    assert HeaderTextAsPrinted(3, 0, 0xFFFF) == p + " P=-0001";
    assert HeaderText(3, 0, 0xFFFF) == p + " P=65535";
    SuffixOf(p, " P=-0001");
    SuffixOf(p, " P=65535");
  }

  lemma CountFieldsAt65535()
    ensures PrintedCount(0xFFFF) == "-0001"
    ensures ZeroPad(0xFFFF, 5) == "65535"
  {
    assert Dec(1) == "1";
    assert Dec(6) == "6";
    assert Dec(65) == Dec(6) + "5";
    assert Dec(655) == Dec(65) + "5";
    assert Dec(6553) == Dec(655) + "3";
    assert Dec(65535) == Dec(6553) + "5";
  }

  lemma SuffixOf(p: string, q: string)
    ensures (p + q)[|p + q| - |q|..] == q
  {
  }

  /** A field that follows prefix p inside s sits at s[|p|..|p| + |field|]. */
  lemma FieldOfPrefix(s: string, p: string, field: string)
    requires p + field <= s
    ensures s[|p|..|p| + |field|] == field
  {
    assert s[..|p| + |field|] == p + field;
    assert (p + field)[|p|..] == field;
  }

  // ---------------------------------------------------------------------------
  // The menu: one line per entry, "->" before the selected one

  const MenuItems: seq<string> := ["Send Data", "Show D/A", "Led ON/OFF", "Exit"]

  function Marker(sel: uint8, i: nat): string
  {
    if sel as int == i then "->" else "  "
  }

  function MenuLine(sel: uint8, i: nat): string
    requires i < MENU_ITEMS
  {
    Marker(sel, i) + MenuItems[i] + "\n"
  }

  /** The first n menu lines. */
  function MenuLines(sel: uint8, n: nat): string
    requires n <= MENU_ITEMS
  {
    if n == 0 then "" else MenuLines(sel, n - 1) + MenuLine(sel, n - 1)
  }

  function MenuText(sel: uint8): string
  {
    MenuLines(sel, MENU_ITEMS)
  }

  /** What a reader sees on line i of the menu: the marker and the entry's name. */
  function MenuFields(sel: uint8, n: nat): (fields: seq<string>)
    requires n <= MENU_ITEMS
    ensures |fields| == n
    ensures forall i :: 0 <= i < n ==> fields[i] == Marker(sel, i) + MenuItems[i]
  {
    if n == 0 then [] else MenuFields(sel, n - 1) + [Marker(sel, n - 1) + MenuItems[n - 1]]
  }

  lemma {:induction false} SplitMenuLines(sel: uint8, n: nat, tail: string)
    requires n <= MENU_ITEMS && '\n' !in tail
    ensures Split(MenuLines(sel, n) + tail, '\n') == MenuFields(sel, n) + [tail]
  {
    SplitWithoutSeparator(tail, '\n');
    if n == 0 {
      assert MenuLines(sel, n) + tail == tail;
    } else {
      var field := Marker(sel, n - 1) + MenuItems[n - 1];
      assert '\n' !in field;
      SplitMenuLines(sel, n - 1, field);
      assert MenuLines(sel, n) + tail == (MenuLines(sel, n - 1) + field) + ['\n'] + tail;
      SplitAppend(MenuLines(sel, n - 1) + field, tail, '\n');
    }
  }

  /**
   * The menu text is exactly MENU_ITEMS newline-terminated lines, line i is
   * the marker followed by entry i, and it fits the 100-byte buffer.
   */
  lemma MenuTextLayout(sel: uint8)
    ensures |MenuText(sel)| == 43 && |MenuText(sel)| < BUFFER_SIZE
    ensures var lines := Split(MenuText(sel), '\n');
      && |lines| == MENU_ITEMS + 1 && lines[MENU_ITEMS] == ""
      && forall i :: 0 <= i < MENU_ITEMS ==> lines[i] == Marker(sel, i) + MenuItems[i]
  {
    SplitMenuLines(sel, MENU_ITEMS, "");
    assert MenuText(sel) + "" == MenuText(sel);
    assert |MenuLines(sel, 1)| == 12;
    assert |MenuLines(sel, 2)| == 23;
    assert |MenuLines(sel, 3)| == 36;
  }

  /** When the selection names an entry, exactly that entry's line starts with "->". */
  lemma MenuMarkerUnique(sel: uint8)
    requires (sel as int) < MENU_ITEMS
    ensures var lines := Split(MenuText(sel), '\n');
      && MENU_ITEMS < |lines|
      && forall i :: 0 <= i < MENU_ITEMS ==> 2 <= |lines[i]| && (lines[i][..2] == "->" <==> i == sel as int)
  {
    MenuTextLayout(sel);
    var lines := Split(MenuText(sel), '\n');
    forall i | 0 <= i < MENU_ITEMS
      ensures lines[i][..2] == "->" <==> i == sel as int
    {
      assert lines[i][..2] == Marker(sel, i);
    }
  }

  /** displayWriteData's menu loop: the first line is written, each further one appended. */
  method BuildMenuText(sel: uint8) returns (text: string)
    ensures text == MenuText(sel)
  {
    text := "";
    for i := 0 to MENU_ITEMS
      invariant text == MenuLines(sel, i)
    {
      var marker := if sel as int == i then "->" else "  ";
      if i == 0 {
        text := marker + MenuItems[i] + "\n";
        assert text == MenuLines(sel, 0) + MenuLine(sel, 0);
      } else {
        text := text + marker + MenuItems[i] + "\n";
        assert text == MenuLines(sel, i) + MenuLine(sel, i);
      }
    }
  }

  // ---------------------------------------------------------------------------
  // The payload in decimal: "%d" for the first byte, " %d" for each further one

  function DecimalPayload(data: seq<uint8>): string
  {
    if |data| == 0 then ""
    else if |data| == 1 then Dec(data[0])
    else DecimalPayload(data[..|data| - 1]) + " " + Dec(data[|data| - 1])
  }

  /** The decimal text of each byte, in order. */
  function DecFields(data: seq<uint8>): seq<string>
  {
    seq(|data|, i requires 0 <= i < |data| => Dec(data[i]))
  }

  lemma {:induction false} SplitDecimalPayload(data: seq<uint8>)
    requires 1 <= |data|
    ensures Split(DecimalPayload(data), ' ') == DecFields(data)
  {
    var last := Dec(data[|data| - 1]);
    assert ' ' !in last by {
      assert AllDigits(last);
    }
    SplitWithoutSeparator(last, ' ');
    if |data| == 1 {
      assert DecFields(data) == [last];
    } else {
      var init := data[..|data| - 1];
      SplitDecimalPayload(init);
      SplitAppend(DecimalPayload(init), last, ' ');
      assert DecFields(data) == DecFields(init) + [last];
    }
  }

  /**
   * The payload text is the bytes' decimal numbers joined by single spaces:
   * splitting it at spaces gives one non-empty field per byte, and each field
   * reads back as its byte.
   */
  lemma DecimalPayloadRoundTrip(data: seq<uint8>)
    requires 1 <= |data|
    ensures var fields := Split(DecimalPayload(data), ' ');
      && |fields| == |data|
      && forall i :: 0 <= i < |data| ==> fields[i] != "" && Value(fields[i]) == data[i]
  {
    SplitDecimalPayload(data);
    forall i | 0 <= i < |data|
      ensures Value(Dec(data[i])) == data[i]
    {
      ValueOfDec(data[i]);
    }
  }

  /** Each byte takes at most three digits, so n bytes take at most 4n - 1 characters. */
  lemma {:induction false} DecimalPayloadLength(data: seq<uint8>)
    requires 1 <= |data|
    ensures |DecimalPayload(data)| <= 4 * |data| - 1
  {
    assert Pow10(3) == 1000;
    DecLengthAtMost(data[|data| - 1], 3);
    if 1 < |data| {
      DecimalPayloadLength(data[..|data| - 1]);
    }
  }

  /** A full RF payload in decimal fits the 100-byte buffer. */
  lemma DecimalPayloadFits(data: seq<uint8>)
    requires |data| == RF_PAYLOAD_SIZE
    ensures |DecimalPayload(data)| < BUFFER_SIZE
  {
    DecimalPayloadLength(data);
  }

  /** displayWriteData's decimal loop: the first byte is written, each further one appended. */
  method BuildDecimalText(data: seq<uint8>) returns (text: string)
    requires 1 <= |data|
    ensures text == DecimalPayload(data)
  {
    text := Dec(data[0]);
    for i := 1 to |data|
      invariant text == DecimalPayload(data[..i])
    {
      assert data[..i + 1][..i] == data[..i];
      text := text + " " + Dec(data[i]);
    }
    assert data[..|data|] == data;
  }
}
