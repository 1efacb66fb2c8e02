/** AX.25 UI frames over KISS: a TNC2 text line becomes address fields and a
    payload, and the reader turns them back into the line. Text is bytes. */
module Ax25 {
  import opened Common
  import opened KissFraming

  const COLON: Byte := 58
  const ARROW: Byte := 62
  const COMMA: Byte := 44
  const DASH: Byte := 45
  const SPACE: Byte := 32
  const UI: Byte := 0x03
  const NO_LAYER_3: Byte := 0xF0

  predicate Upper(b: Byte) { 65 <= b <= 90 }

  predicate Digit(b: Byte) { 48 <= b <= 57 }

  /** The marks of a line are these characters of ASCII. */
  lemma MarksInAscii()
    ensures COLON == ':' as int && ARROW == '>' as int && COMMA == ',' as int && DASH == '-' as int && SPACE == ' ' as int
  {
  }

  // ── text ─────────────────────────────────────────────────────────────────

  function Split(s: Bytes, separator: Byte): (parts: seq<Bytes>)
    ensures |parts| > 0
    decreases |s|
  {
    var i := IndexOf(s, separator);
    if i < 0 then [s] else [s[..i]] + Split(s[i + 1..], separator)
  }

  function Join(parts: seq<Bytes>, separator: Byte): Bytes {
    if |parts| == 0 then []
    else if |parts| == 1 then parts[0]
    else parts[0] + [separator] + Join(parts[1..], separator)
  }

  lemma SplitAtTheFirst(a: Bytes, separator: Byte, rest: Bytes)
    requires separator !in a
    ensures Split(a + [separator] + rest, separator) == [a] + Split(rest, separator)
  {
    hide IndexOf;
    var s := a + [separator] + rest;
    FirstIsUnique(a, separator, rest);
    assert s[..|a|] == a && s[|a| + 1..] == rest;
  }

  lemma {:induction false} SplitUndoesJoin(parts: seq<Bytes>, separator: Byte)
    requires |parts| > 0 && forall i | 0 <= i < |parts| :: separator !in parts[i]
    ensures Split(Join(parts, separator), separator) == parts
    decreases |parts|
  {
    if |parts| == 1 {
      assert separator !in parts[0];
    } else {
      assert Join(parts, separator) == parts[0] + [separator] + Join(parts[1..], separator);
      assert parts == [parts[0]] + parts[1..];
      hide Split, Join;
      SplitAtTheFirst(parts[0], separator, Join(parts[1..], separator));
      SplitUndoesJoin(parts[1..], separator);
    }
  }

  // ── sending an address ───────────────────────────────────────────────────

  predicate Blank(b: Byte) { b == SPACE || (9 <= b <= 13 && b != 10) }

  function SkipBlanks(s: Bytes): Bytes {
    if s != [] && Blank(s[0]) then SkipBlanks(s[1..]) else s
  }

  function LeadingDigits(s: Bytes): (n: nat)
    ensures n <= |s|
  {
    if s != [] && Digit(s[0]) then 1 + LeadingDigits(s[1..]) else 0
  }

  function Value(digits: Bytes): int {
    if digits == [] then 0 else 10 * Value(digits[..|digits| - 1]) + digits[|digits| - 1] - 48
  }

  /** The low four bits of what `Sscanf("%d")` reads; 0 when it reads no number
      that fits. The text comes from after the last dash, so its only possible
      sign is a plus. */
  function ScannedSsid(s: Bytes): int {
    var unsigned := SkipBlanks(s);
    var digits := if unsigned != [] && unsigned[0] == 43 then unsigned[1..] else unsigned;
    var n := LeadingDigits(digits);
    if n == 0 || Value(digits[..n]) > 0x7FFF_FFFF_FFFF_FFFF then 0 else Value(digits[..n]) % 16
  }

  lemma {:induction false} DigitsLead(digits: Bytes, rest: Bytes)
    requires (forall b | b in digits :: Digit(b)) && (rest != [] ==> !Digit(rest[0]))
    ensures LeadingDigits(digits + rest) == |digits|
  {
    if digits == [] {
      assert digits + rest == rest;
    } else {
      assert digits[0] in digits;
      assert (digits + rest)[1..] == digits[1..] + rest;
      DigitsLead(digits[1..], rest);
    }
  }

  lemma {:induction false} BlanksAreSkipped(blanks: Bytes, rest: Bytes)
    requires (forall b | b in blanks :: Blank(b)) && (rest != [] ==> !Blank(rest[0]))
    ensures SkipBlanks(blanks + rest) == rest
  {
    if blanks == [] {
      assert blanks + rest == rest;
    } else {
      assert blanks[0] in blanks;
      assert (blanks + rest)[1..] == blanks[1..] + rest;
      BlanksAreSkipped(blanks[1..], rest);
    }
  }

  /** Reading a number: blanks but no line feed before it, at most a plus sign, digits,
      and whatever follows; four bits of it remain. */
  lemma SsidIsRead(blanks: Bytes, plus: bool, digits: Bytes, rest: Bytes)
    requires forall b | b in blanks :: b in {9, 11, 12, 13, 32}
    requires digits != [] && forall b | b in digits :: '0' as int <= b <= '9' as int
    requires rest != [] ==> !('0' as int <= rest[0] <= '9' as int)
    ensures var n := Value(digits);
      ScannedSsid(blanks + (if plus then ['+' as int] else []) + digits + rest)
        == if n > 0x7FFF_FFFF_FFFF_FFFF then 0 else n % 16
  {
    hide Value, LeadingDigits, SkipBlanks;
    var sign := if plus then [43] else [];
    var number := digits + rest;
    assert digits[0] in digits;
    Ungrouped(blanks, sign, digits, rest);
    BlanksAreSkipped(blanks, sign + number);
    DigitsLead(digits, rest);
    SignedNumber(sign, number);
    assert number[..|digits|] == digits;
    hide Blank;
  }

  lemma Ungrouped(a: Bytes, b: Bytes, c: Bytes, d: Bytes)
    ensures a + (b + (c + d)) == a + b + c + d
  {
  }

  lemma SignedNumber(sign: Bytes, number: Bytes)
    requires sign in [[], [43]] && number != [] && number[0] != 43
    ensures var u := sign + number;
      u != [] && (if u[0] == 43 then u[1..] else u) == number
  {
    if sign == [] { assert sign + number == number; }
  }

  /** Without a digit there is no SSID. */
  lemma NoDigitNoSsid(s: Bytes)
    requires forall b | b in s :: !('0' as int <= b <= '9' as int)
    ensures ScannedSsid(s) == 0
  {
    SkippedIsASuffix(s);
    var u := SkipBlanks(s);
    assert forall k | 0 <= k < |u| :: u[k] in s;
    hide SkipBlanks;
  }

  lemma {:induction false} SkippedIsASuffix(s: Bytes)
    ensures forall b | b in SkipBlanks(s) :: b in s
  {
    if s == [] {
    } else if Blank(s[0]) {
      SkippedIsASuffix(s[1..]);
    } else {
    }
  }

  function Upcased(b: Byte): Byte { if 97 <= b <= 122 then b - 32 else b }

  function CallPart(addr: Bytes): Bytes {
    var dash := LastIndexOf(addr, DASH);
    if dash >= 0 then addr[..dash] else addr
  }

  function SsidPart(addr: Bytes): int {
    var dash := LastIndexOf(addr, DASH);
    if dash >= 0 then ScannedSsid(addr[dash + 1..]) else 0
  }

  lemma SsidFitsFourBits(addr: Bytes)
    ensures 0 <= SsidPart(addr) < 16
  {
  }

  /** `c << 1` in one byte. */
  function ShiftedLeft(c: Byte): Byte { if c < 128 then 2 * c else 2 * c - 256 }

  /** The top bit falls out. */
  lemma ShiftedIsDoubled(c: Byte)
    ensures ShiftedLeft(c) == 2 * c % 256
  {
  }

  /** The character at place i of the call sign, shifted left in its byte. */
  function Shifted(call: Bytes, i: nat): Byte {
    if i < |call| then ShiftedLeft(Upcased(call[i])) else ShiftedLeft(SPACE)
  }

  function SsidByte(ssid: int, last: bool): Byte
    requires 0 <= ssid < 16
  {
    2 * ssid + 0x60 + if last then 1 else 0
  }

  function AddressField(addr: Bytes, last: bool): Bytes {
    hide *;
    SsidFitsFourBits(addr);
    seq(6, i requires 0 <= i < 6 => Shifted(CallPart(addr), i)) + [SsidByte(SsidPart(addr), last)]
  }

  method EncodeAddress(addr: Bytes, last: bool) returns (b: array<Byte>)
    ensures fresh(b) && b[..] == AddressField(addr, last)
  {
    hide LastIndexOf, ScannedSsid;
    b := new Byte[7];
    var call, ssid := addr, 0;
    var dash := LastIndexOf(addr, DASH);
    if dash >= 0 {
      call := addr[..dash];
      ssid := ScannedSsid(addr[dash + 1..]);
    }
    SsidFitsFourBits(addr);
    assert call == CallPart(addr) && ssid == SsidPart(addr);
    hide CallPart, SsidPart;
    for i := 0 to 6
      invariant forall k | 0 <= k < i :: b[k] == Shifted(call, k)
    {
      if i < |call| {
        var c := call[i];
        if 97 <= c <= 122 { c := c - 32; }
        b[i] := ShiftedLeft(c);
      } else {
        b[i] := ShiftedLeft(SPACE);
      }
    }
    hide Shifted;
    assert b[..6] == seq(6, i requires 0 <= i < 6 => Shifted(call, i));
    b[6] := 2 * ssid;
    if last { b[6] := b[6] + 1; }
    b[6] := b[6] + 0x60;
    assert b[..] == b[..6] + [b[6]];
  }

  // ── sending a line ───────────────────────────────────────────────────────

  /** The address fields, the last one marked. */
  function Addresses(addrs: seq<Bytes>): Bytes {
    if addrs == [] then [] else AddressField(addrs[0], |addrs| == 1) + Addresses(addrs[1..])
  }

  function UiFrame(addrs: seq<Bytes>, info: Bytes): Bytes {
    Addresses(addrs) + [UI, NO_LAYER_3] + info
  }

  datatype Outcome = Written(wire: Bytes) | MissingColon | MissingArrow

  function Sent(line: Bytes): Outcome {
    var colon := IndexOf(line, COLON);
    if colon < 0 then MissingColon
    else
      var header := line[..colon];
      var arrow := IndexOf(header, ARROW);
      if arrow < 0 then MissingArrow
      else
        var parts := Split(header[arrow + 1..], COMMA);
        Written(Framed([0x00] + UiFrame([parts[0], header[..arrow]] + parts[1..], line[colon + 1..])))
  }

  /** The fields written so far, when the last address is still to come. */
  function Unmarked(addrs: seq<Bytes>): Bytes {
    if addrs == [] then [] else Unmarked(addrs[..|addrs| - 1]) + AddressField(addrs[|addrs| - 1], false)
  }

  lemma {:induction false} LastAddressCloses(addrs: seq<Bytes>, more: seq<Bytes>)
    requires more != []
    ensures Addresses(addrs + more) == Unmarked(addrs) + Addresses(more)
    decreases |addrs|
  {
    hide AddressField;
    if addrs == [] {
      assert addrs + more == more;
    } else {
      var init, x := addrs[..|addrs| - 1], addrs[|addrs| - 1];
      assert ([x] + more)[1..] == more;
      assert Addresses([x] + more) == AddressField(x, false) + Addresses(more);
      assert Unmarked(addrs) == Unmarked(init) + AddressField(x, false);
      hide Addresses, Unmarked;
      LastAddressCloses(init, [x] + more);
      assert init + ([x] + more) == addrs + more;
    }
  }

  method SendKissFrame(line: Bytes) returns (r: Outcome)
    ensures r == Sent(line)
  {
    hide AddressField, Split;
    var headerEnd := IndexOf(line, COLON);
    if headerEnd < 0 { return MissingColon; }
    var header, info := line[..headerEnd], line[headerEnd + 1..];
    var gt := IndexOf(header, ARROW);
    if gt < 0 { return MissingArrow; }
    var parts := Split(header[gt + 1..], COMMA);
    var addrs := [parts[0], header[..gt]] + parts[1..];
    var frame := EncodeAll(addrs);
    frame := frame + [UI, NO_LAYER_3] + info;
    var kiss := WrapFrame(frame);
    assert Escape([0x00] + frame) == [0x00] + Escape(frame) by {
      assert ([0x00] + frame)[1..] == frame;
    }
    assert kiss == Framed([0x00] + frame);
    r := Written(kiss);
  }

  method EncodeAll(addrs: seq<Bytes>) returns (frame: Bytes)
    requires addrs != []
    ensures frame == Addresses(addrs)
  {
    hide AddressField;
    frame := [];
    for k := 0 to |addrs|
      invariant frame == if k < |addrs| then Unmarked(addrs[..k]) else Addresses(addrs)
    {
      var b := EncodeAddress(addrs[k], k == |addrs| - 1);
      frame := frame + b[..];
      if k + 1 < |addrs| {
        assert addrs[..k + 1][..k] == addrs[..k];
      } else {
        LastAddressCloses(addrs[..k], [addrs[k]]);
        assert addrs == addrs[..k] + [addrs[k]];
        assert Addresses([addrs[k]]) == AddressField(addrs[k], true) + Addresses([]);
      }
    }
  }

  // ── receiving an address ─────────────────────────────────────────────────

  function TrimmedRight(s: Bytes): Bytes {
    if s != [] && s[|s| - 1] == SPACE then TrimmedRight(s[..|s| - 1]) else s
  }

  function Decimal(n: int): Bytes
    requires 0 <= n < 16
  {
    if n < 10 then [48 + n] else [49, 48 + n - 10]
  }

  predicate Printable(b: Byte) { 32 <= b <= 126 }

  function Unshifted(b: Bytes): Bytes
    requires |b| >= 6
  {
    seq(6, i requires 0 <= i < 6 => b[i] / 2)
  }

  function WithSsid(call: Bytes, ssid: int): Bytes
    requires 0 <= ssid < 16
  {
    if ssid > 0 then call + [DASH] + Decimal(ssid) else call
  }

  /** The text of one address field; empty when the field is not an address. */
  function DecodedAddress(b: Bytes): Bytes {
    if |b| < 7 || exists c | c in Unshifted(b) :: !Printable(c) then []
    else
      var call := TrimmedRight(Unshifted(b));
      if call == [] then [] else WithSsid(call, b[6] / 2 % 16)
  }

  method DecodeAddress(b: Bytes) returns (addr: Bytes)
    ensures addr == DecodedAddress(b)
  {
    hide TrimmedRight;
    if |b| < 7 { return []; }
    var call := new Byte[6];
    for i := 0 to 6
      invariant forall k | 0 <= k < i :: call[k] == b[k] / 2 && Printable(call[k])
    {
      call[i] := b[i] / 2;
      if call[i] < 32 || call[i] > 126 {
        assert Unshifted(b)[i] == call[i] && call[i] in Unshifted(b);
        return [];
      }
    }
    assert call[..] == Unshifted(b);
    var callsign := TrimmedRight(call[..]);
    if callsign == [] { return []; }
    addr := WithSsid(callsign, b[6] / 2 % 16);
  }

  // ── receiving a frame ────────────────────────────────────────────────────

  /** The addresses a frame opens with, and the bytes after them. */
  datatype Chain = Chain(addrs: seq<Bytes>, rest: Bytes)

  function ChainOf(raw: Bytes): Chain
    decreases |raw|
  {
    if |raw| < 7 then Chain([], raw)
    else
      var addr := DecodedAddress(raw[..7]);
      if addr == [] then Chain([], raw)
      else if raw[6] % 2 == 1 then Chain([addr], raw[7..])
      else
        var more := ChainOf(raw[7..]);
        Chain([addr] + more.addrs, more.rest)
  }

  function InfoField(rest: Bytes): Bytes {
    if |rest| > 2 && rest[0] == UI && rest[1] == NO_LAYER_3 then rest[2..]
    else if |rest| > 1 && rest[0] == UI then rest[1..]
    else rest
  }

  function Opening(raw: Bytes): Bytes { if |raw| < 20 then raw else raw[..20] }

  /** The shortcut that takes a frame for TNC2 text already. */
  predicate LooksLikeText(raw: Bytes) {
    |raw| > 0 && (Upper(raw[0]) || Digit(raw[0])) && ARROW in Opening(raw)
  }

  function TextLine(addrs: seq<Bytes>, body: Bytes): Bytes
    requires |addrs| >= 2
  {
    var path := Join(addrs[2..], COMMA);
    addrs[1] + [ARROW] + addrs[0] + (if path != [] then [COMMA] + path else []) + [COLON] + body
  }

  /** The line a received frame stands for. */
  function Extracted(raw: Bytes): Bytes {
    if |raw| < 17 || LooksLikeText(raw) then raw
    else
      var chain := ChainOf(raw);
      if |chain.addrs| < 2 || InfoField(chain.rest) == [] then raw
      else TextLine(chain.addrs, InfoField(chain.rest))
  }

  method StartsAsText(raw: Bytes) returns (text: bool)
    requires |raw| >= 17
    ensures text == LooksLikeText(raw)
  {
    if !(Upper(raw[0]) || Digit(raw[0])) { return false; }
    var i := 0;
    while i < |raw| && i < 20
      invariant 0 <= i <= |Opening(raw)|
      invariant ARROW !in Opening(raw)[..i]
    {
      assert Opening(raw)[i] == raw[i];
      if raw[i] == ARROW { return true; }
      assert Opening(raw)[..i + 1] == Opening(raw)[..i] + [raw[i]];
      i := i + 1;
    }
    assert Opening(raw)[..i] == Opening(raw);
    return false;
  }

  /** One step of the address loop, seen from place i of the frame. */
  lemma ChainStep(raw: Bytes, i: nat)
    requires i + 7 <= |raw|
    ensures var addr, more := DecodedAddress(raw[i..i + 7]), ChainOf(raw[i + 7..]);
      ChainOf(raw[i..]) == if addr == [] then Chain([], raw[i..])
                           else if raw[i + 6] % 2 == 1 then Chain([addr], raw[i + 7..])
                           else Chain([addr] + more.addrs, more.rest)
  {
    hide DecodedAddress;
    assert raw[i..][..7] == raw[i..i + 7] && raw[i..][7..] == raw[i + 7..] && raw[i..][6] == raw[i + 6];
  }

  method ReadChain(raw: Bytes) returns (addrs: seq<Bytes>, i: nat)
    ensures i <= |raw| && ChainOf(raw) == Chain(addrs, raw[i..])
  {
    hide DecodedAddress, ChainOf;
    addrs, i := [], 0;
    assert raw[0..] == raw && [] + ChainOf(raw).addrs == ChainOf(raw).addrs;
    while i + 7 <= |raw|
      invariant i <= |raw|
      invariant ChainOf(raw) == Chain(addrs + ChainOf(raw[i..]).addrs, ChainOf(raw[i..]).rest)
    {
      ChainStep(raw, i);
      var addr := DecodeAddress(raw[i..i + 7]);
      if addr == [] {
        assert addrs + [] == addrs;
        return;
      }
      var lastByte := raw[i + 6];
      assert addrs + ([addr] + ChainOf(raw[i + 7..]).addrs) == addrs + [addr] + ChainOf(raw[i + 7..]).addrs;
      addrs := addrs + [addr];
      i := i + 7;
      if lastByte % 2 == 1 { return; }
    }
    ChainEnds(raw[i..]);
    assert addrs + [] == addrs;
  }

  lemma ChainEnds(rest: Bytes)
    requires |rest| < 7
    ensures ChainOf(rest) == Chain([], rest)
  {
  }

  method ExtractTnc2(raw: Bytes) returns (line: Bytes)
    ensures line == Extracted(raw)
  {
    hide ChainOf, LooksLikeText, Join;
    if |raw| < 17 { return raw; }
    var text := StartsAsText(raw);
    if text { return raw; }
    var addrs, i := ReadChain(raw);
    if |addrs| < 2 { return raw; }
    var infoStart := i + 2;
    if infoStart < |raw| && raw[i] == UI && raw[i + 1] == NO_LAYER_3 {
      assert raw[i..][2..] == raw[infoStart..];
    } else if infoStart - 1 < |raw| && raw[i] == UI {
      infoStart := i + 1;
      assert raw[i..][1..] == raw[infoStart..];
    } else {
      infoStart := i;
    }
    var body := raw[infoStart..];
    assert body == InfoField(raw[i..]);
    if body == [] { return raw; }
    var path := Join(addrs[2..], COMMA);
    line := addrs[1] + [ARROW] + addrs[0];
    if path != [] { line := line + [COMMA] + path; }
    line := line + [COLON] + body;
  }

  // ── the reader ───────────────────────────────────────────────────────────

  /** The frame without its command byte. */
  function Payload(frame: Bytes): Bytes {
    if |frame| > 1 && frame[0] == 0x00 then frame[1..] else frame
  }

  function Packet(frame: Bytes): seq<Bytes> {
    if Extracted(Payload(frame)) == [] then [] else [Extracted(Payload(frame))]
  }

  function Packets(frames: seq<Bytes>): seq<Bytes> {
    if frames == [] then [] else Packet(frames[0]) + Packets(frames[1..])
  }

  lemma {:induction false} OnePacketMore(frames: seq<Bytes>, frame: Bytes)
    ensures Packets(frames + [frame]) == Packets(frames) + Packet(frame)
    decreases |frames|
  {
    hide Packet;
    if frames == [] {
      assert frames + [frame] == [frame];
    } else {
      OnePacketMore(frames[1..], frame);
      assert (frames + [frame])[1..] == frames[1..] + [frame];
    }
  }

  /** `readFrames`: a loop over reads, a loop over the bytes of each, the state
      carried across both. The packets handed on are those of the whole stream,
      however it was cut. */
  method ReadFrames(chunks: seq<Bytes>) returns (packets: seq<Bytes>)
    ensures packets == Packets(Frames(IDLE, Concat(chunks)))
  {
    packets := [];
    var r := IDLE;
    assert Frames(IDLE, []) == [] && ReaderAfter(IDLE, []) == IDLE && Packets([]) == [];
    assert chunks[..0] == [] && Concat([]) == [];
    hide Frames, ReaderAfter, Packets, Packet, Concat;
    for k := 0 to |chunks|
      invariant r == ReaderAfter(IDLE, Concat(chunks[..k]))
      invariant packets == Packets(Frames(IDLE, Concat(chunks[..k])))
    {
      r, packets := ReadBuffer(r, packets, Concat(chunks[..k]), chunks[k]);
      ConcatOneMore(chunks, k);
    }
    assert chunks[..|chunks|] == chunks;
  }

  method ReadBuffer(before: Reader, delivered: seq<Bytes>, ghost seen: Bytes, buf: Bytes)
    returns (r: Reader, packets: seq<Bytes>)
    requires before == ReaderAfter(IDLE, seen) && delivered == Packets(Frames(IDLE, seen))
    ensures r == ReaderAfter(IDLE, seen + buf)
    ensures packets == Packets(Frames(IDLE, seen + buf))
  {
    hide Frames, ReaderAfter, Packets;
    var frame, inFrame, escape := before.frame, before.inFrame, before.escape;
    packets := delivered;
    assert seen + buf[..0] == seen;
    for i := 0 to |buf|
      invariant Reader(frame, inFrame, escape) == ReaderAfter(IDLE, seen + buf[..i])
      invariant packets == Packets(Frames(IDLE, seen + buf[..i]))
    {
      var b := buf[i];
      OneByteMore(IDLE, seen + buf[..i], b);
      assert seen + buf[..i] + [b] == seen + buf[..i + 1];
      assert Frames(IDLE, seen + buf[..i]) + [] == Frames(IDLE, seen + buf[..i]);
      if b == FEND {
        if inFrame && |frame| > 0 {
          OnePacketMore(Frames(IDLE, seen + buf[..i]), frame);
          var payload := frame;
          if |payload| > 1 && payload[0] == 0x00 { payload := payload[1..]; }
          var tnc2 := ExtractTnc2(payload);
          if tnc2 != [] { packets := packets + [tnc2]; }
        }
        frame, inFrame, escape := [], true, false;
        continue;
      }
      if !inFrame { continue; }
      if escape {
        escape := false;
        if b == TFEND { b := FEND; } else if b == TFESC { b := FESC; }
        frame := frame + [b];
        continue;
      }
      if b == FESC { escape := true; continue; }
      frame := frame + [b];
    }
    assert buf[..|buf|] == buf;
    r := Reader(frame, inFrame, escape);
  }

  // ── lines that come back ─────────────────────────────────────────────────

  predicate CallCharacter(b: Byte) { Upper(b) || Digit(b) }

  /** A call sign with its SSID, 0 standing for none. */
  datatype Call = Call(name: Bytes, ssid: int)

  predicate ValidCall(c: Call) {
    1 <= |c.name| <= 6 && 0 <= c.ssid < 16 && forall b | b in c.name :: CallCharacter(b)
  }

  function CallText(c: Call): Bytes
    requires ValidCall(c)
  {
    WithSsid(c.name, c.ssid)
  }

  datatype Line = Line(src: Call, dst: Call, digis: seq<Call>, body: Bytes)

  predicate ValidLine(l: Line) {
    ValidCall(l.src) && ValidCall(l.dst) && forall i | 0 <= i < |l.digis| :: ValidCall(l.digis[i])
  }

  function CallTexts(calls: seq<Call>): seq<Bytes>
    requires forall i | 0 <= i < |calls| :: ValidCall(calls[i])
  {
    seq(|calls|, i requires 0 <= i < |calls| => CallText(calls[i]))
  }

  /** Destination first, then source, then the digipeater path: wire order. */
  function WireOrder(l: Line): seq<Bytes>
    requires ValidLine(l)
  {
    [CallText(l.dst), CallText(l.src)] + CallTexts(l.digis)
  }

  /** `SRC>DST,DIGI,...:BODY`. */
  function LineText(l: Line): Bytes
    requires ValidLine(l)
  {
    CallText(l.src) + [ARROW] + Join([CallText(l.dst)] + CallTexts(l.digis), COMMA) + [COLON] + l.body
  }

  lemma CallTextCharacters(c: Call, b: Byte)
    requires ValidCall(c) && b in CallText(c)
    ensures CallCharacter(b) || b == DASH
  {
    var suffix := [DASH] + Decimal(c.ssid);
    assert CallText(c) == c.name || CallText(c) == c.name + suffix;
    assert b in c.name || b in suffix;
  }

  // An address survives the trip.

  lemma SsidIsScanned(ssid: int)
    requires 0 <= ssid < 16
    ensures DASH !in Decimal(ssid)
    ensures ScannedSsid(Decimal(ssid)) == ssid
  {
    var d := Decimal(ssid);
    assert SkipBlanks(d) == d;
    if ssid < 10 {
      assert d[1..] == [] && d[..1] == d && d[..0] == [];
      assert LeadingDigits(d) == 1 && Value(d) == ssid;
    } else {
      assert d[1..] == [48 + ssid - 10] && d[1..][1..] == [] && d[..2] == d && d[..1] == [49] && [49][..0] == [];
      assert LeadingDigits(d) == 1 + LeadingDigits(d[1..]) == 2;
      assert Value(d) == 10 * Value([49]) + ssid - 10;
    }
  }

  lemma CallIsSplit(c: Call)
    requires ValidCall(c)
    ensures CallPart(CallText(c)) == c.name && SsidPart(CallText(c)) == c.ssid
  {
    hide ScannedSsid, LastIndexOf, Decimal;
    assert !CallCharacter(DASH);
    if c.ssid > 0 {
      SsidIsScanned(c.ssid);
      LastIsUnique(c.name, DASH, Decimal(c.ssid));
      var t := CallText(c);
      assert t == c.name + [DASH] + Decimal(c.ssid);
      assert t[..|c.name|] == c.name && t[|c.name| + 1..] == Decimal(c.ssid);
    }
  }

  function Padding(n: nat): Bytes { seq(n, _ => SPACE) }

  lemma {:induction false} TrimmingDropsPadding(s: Bytes, n: nat)
    requires s != [] && s[|s| - 1] != SPACE
    ensures TrimmedRight(s + Padding(n)) == s
    decreases n
  {
    if n == 0 {
      assert s + Padding(0) == s;
    } else {
      var t := s + Padding(n);
      assert t[..|t| - 1] == s + Padding(n - 1) && t[|t| - 1] == SPACE;
      TrimmingDropsPadding(s, n - 1);
    }
  }

  lemma FieldIsThePaddedName(c: Call, last: bool)
    requires ValidCall(c)
    ensures var f := AddressField(CallText(c), last);
      |f| == 7 && Unshifted(f) == c.name + Padding(6 - |c.name|) && f[6] == SsidByte(c.ssid, last)
  {
    var f := AddressField(CallText(c), last);
    CallIsSplit(c);
    hide CallPart, SsidPart, CallText;
    var u := c.name + Padding(6 - |c.name|);
    forall i | 0 <= i < 6
      ensures f[i] / 2 == u[i]
    {
      assert i < |c.name| ==> c.name[i] in c.name;
    }
  }

  lemma AddressComesBack(c: Call, last: bool)
    requires ValidCall(c)
    ensures |AddressField(CallText(c), last)| == 7
    ensures DecodedAddress(AddressField(CallText(c), last)) == CallText(c) != []
    ensures AddressField(CallText(c), last)[6] % 2 == if last then 1 else 0
  {
    hide AddressField, TrimmedRight, WithSsid, Unshifted;
    FieldIsThePaddedName(c, last);
    TextIsNotEmpty(c);
    var u := c.name + Padding(6 - |c.name|);
    forall b | b in u
      ensures Printable(b)
    {
      assert b in c.name || b in Padding(6 - |c.name|);
    }
    assert c.name[|c.name| - 1] in c.name;
    TrimmingDropsPadding(c.name, 6 - |c.name|);
    assert CallText(c) == WithSsid(c.name, c.ssid);
    assert c.name != [];
    SsidByteIsUndone(c.ssid, last);
  }

  lemma SsidByteIsUndone(ssid: int, last: bool)
    requires 0 <= ssid < 16
    ensures SsidByte(ssid, last) / 2 % 16 == ssid
    ensures SsidByte(ssid, last) % 2 == if last then 1 else 0
  {
    assert SsidByte(ssid, last) / 2 == 48 + ssid;
  }

  lemma TextIsNotEmpty(c: Call)
    requires ValidCall(c)
    ensures CallText(c) == WithSsid(c.name, c.ssid) != []
    ensures CallText(c)[0] == c.name[0]
  {
  }

  lemma {:induction false} AddressesComeBack(calls: seq<Call>, tail: Bytes)
    requires calls != [] && forall i | 0 <= i < |calls| :: ValidCall(calls[i])
    ensures ChainOf(Addresses(CallTexts(calls)) + tail) == Chain(CallTexts(calls), tail)
    decreases |calls|
  {
    hide AddressField, DecodedAddress, CallText;
    var texts, rest := CallTexts(calls), CallTexts(calls[1..]);
    assert texts[1..] == rest;
    var last := |calls| == 1;
    var f := AddressField(CallText(calls[0]), last);
    AddressComesBack(calls[0], last);
    var raw := Addresses(texts) + tail;
    assert raw == f + (Addresses(rest) + tail);
    assert raw[..7] == f && raw[7..] == Addresses(rest) + tail && raw[6] == f[6];
    if last {
      assert Addresses(rest) == [] && [] + tail == tail;
      assert texts == [CallText(calls[0])];
    } else {
      AddressesComeBack(calls[1..], tail);
      assert texts == [CallText(calls[0])] + rest;
    }
  }

  // A line survives the trip.

  lemma {:induction false} JoinAvoids(parts: seq<Bytes>, separator: Byte, b: Byte)
    requires b != separator && forall i | 0 <= i < |parts| :: b !in parts[i]
    ensures b !in Join(parts, separator)
    decreases |parts|
  {
    if |parts| <= 1 {
    } else {
      JoinAvoids(parts[1..], separator, b);
    }
  }

  lemma CallTextAvoids(c: Call, b: Byte)
    requires ValidCall(c) && !CallCharacter(b) && b != DASH
    ensures b !in CallText(c)
  {
    forall x | x in CallText(c)
      ensures x != b
    {
      CallTextCharacters(c, x);
    }
  }

  /** The sender takes the line apart where it was put together. */
  lemma LineIsSent(l: Line)
    requires ValidLine(l)
    ensures Sent(LineText(l)) == Written(Framed([0x00] + UiFrame(WireOrder(l), l.body)))
  {
    hide Addresses, CallText, IndexOf, Escape, Join, Split;
    var dst := [CallText(l.dst)];
    var targets := dst + CallTexts(l.digis);
    var src, path := CallText(l.src), Join(targets, COMMA);
    var header := src + [ARROW] + path;
    CallTextAvoids(l.src, COLON);
    CallTextAvoids(l.src, ARROW);
    forall i | 0 <= i < |targets|
      ensures COLON !in targets[i] && COMMA !in targets[i]
    {
      var c := if i == 0 then l.dst else l.digis[i - 1];
      CallTextAvoids(c, COLON);
      CallTextAvoids(c, COMMA);
    }
    JoinAvoids(targets, COMMA, COLON);
    HeaderIsParsed(src, path, l.body);
    SplitUndoesJoin(targets, COMMA);
    assert targets[0] == CallText(l.dst) && targets[1..] == CallTexts(l.digis);
    assert WireOrder(l) == [targets[0], src] + targets[1..];
  }

  lemma HeaderIsParsed(src: Bytes, path: Bytes, body: Bytes)
    requires COLON !in src && ARROW !in src && COLON !in path
    ensures var line := src + [ARROW] + path + [COLON] + body;
      var parts := Split(path, COMMA);
      Sent(line) == Written(Framed([0x00] + UiFrame([parts[0], src] + parts[1..], body)))
  {
    hide Framed, UiFrame, IndexOf, Split;
    var header := src + [ARROW] + path;
    var line := header + [COLON] + body;
    FirstIsUnique(header, COLON, body);
    FirstIsUnique(src, ARROW, path);
    assert line[..|header|] == header && line[|header| + 1..] == body;
    assert header[..|src|] == src && header[|src| + 1..] == path;
  }

  /** The first byte of a frame is a shifted letter or digit, so the frame is
      never taken for text. */
  lemma ShortcutNeverMisfires(l: Line)
    requires ValidLine(l)
    ensures |UiFrame(WireOrder(l), l.body)| == 7 * (2 + |l.digis|) + 2 + |l.body|
    ensures 96 <= UiFrame(WireOrder(l), l.body)[0]
    ensures !LooksLikeText(UiFrame(WireOrder(l), l.body))
  {
    hide Addresses, CallText, AddressField;
    var calls := [l.dst, l.src] + l.digis;
    assert WireOrder(l) == CallTexts(calls);
    AddressesAreSevenBytes(calls);
    var frame := UiFrame(WireOrder(l), l.body);
    assert frame[0] == Addresses(CallTexts(calls))[0];
  }

  lemma {:induction false} AddressesAreSevenBytes(calls: seq<Call>)
    requires forall i | 0 <= i < |calls| :: ValidCall(calls[i])
    ensures |Addresses(CallTexts(calls))| == 7 * |calls|
    ensures calls != [] ==> 96 <= Addresses(CallTexts(calls))[0]
    decreases |calls|
  {
    hide AddressField, CallText;
    if calls == [] {
    } else {
      assert CallTexts(calls)[1..] == CallTexts(calls[1..]);
      AddressesAreSevenBytes(calls[1..]);
      var f := AddressField(CallText(calls[0]), |calls| == 1);
      FieldIsThePaddedName(calls[0], |calls| == 1);
      assert Unshifted(f)[0] == f[0] / 2 == calls[0].name[0];
      assert calls[0].name[0] in calls[0].name;
    }
  }

  lemma TextLineIsTheLine(l: Line, body: Bytes)
    requires ValidLine(l)
    ensures TextLine(WireOrder(l), body) == LineText(l.(body := body))
  {
    hide CallText;
    var w, digis := WireOrder(l), CallTexts(l.digis);
    assert w[2..] == digis && w[0] == CallText(l.dst) && w[1] == CallText(l.src);
    var targets := [w[0]] + digis;
    assert targets[1..] == digis;
    if l.digis != [] {
      TextIsNotEmpty(l.digis[0]);
      assert digis[0] == CallText(l.digis[0]);
      assert Join(digis, COMMA) != [];
      assert Join(targets, COMMA) == w[0] + [COMMA] + Join(digis, COMMA);
    } else {
      assert Join(targets, COMMA) == w[0] && digis == [];
    }
  }

  /** What one frame is read as, for every body. An empty body is misread: with
      digipeaters the protocol byte becomes the body, without them the frame
      falls below the length at which addresses are looked for. */
  lemma FrameIsReadAs(l: Line)
    requires ValidLine(l)
    ensures Extracted(UiFrame(WireOrder(l), l.body))
         == if l.body != [] then LineText(l)
            else if l.digis == [] then UiFrame(WireOrder(l), [])
            else LineText(l.(body := [NO_LAYER_3]))
  {
    hide UiFrame, LooksLikeText, TextLine, ChainOf, LineText, WireOrder, InfoField;
    ShortcutNeverMisfires(l);
    FrameChain(l);
    InfoIsTheBody(l.body);
    TextLineIsTheLine(l, if l.body != [] then l.body else [NO_LAYER_3]);
    assert l.(body := l.body) == l;
  }

  lemma FrameChain(l: Line)
    requires ValidLine(l)
    ensures |WireOrder(l)| == 2 + |l.digis|
    ensures ChainOf(UiFrame(WireOrder(l), l.body)) == Chain(WireOrder(l), [UI, NO_LAYER_3] + l.body)
  {
    hide Addresses, CallText, ChainOf;
    var calls := [l.dst, l.src] + l.digis;
    var rest := [UI, NO_LAYER_3] + l.body;
    assert WireOrder(l) == CallTexts(calls);
    assert UiFrame(WireOrder(l), l.body) == Addresses(CallTexts(calls)) + rest;
    AddressesComeBack(calls, rest);
  }

  lemma InfoIsTheBody(body: Bytes)
    ensures InfoField([UI, NO_LAYER_3] + body) == if body != [] then body else [NO_LAYER_3]
  {
    var rest := [UI, NO_LAYER_3] + body;
    assert rest[2..] == body;
    assert rest[1..] == [NO_LAYER_3] + body;
  }

  // The bytes of a frame, in numbers.

  /** Byte i of an address field: the shifted call sign, padded with shifted blanks, and
      the SSID between the reserved bits 0x60 and the end bit. */
  function WireByte(c: Call, last: bool, i: int): int
    requires ValidCall(c) && 0 <= i < 7
  {
    if i == 6 then 0x60 + 2 * c.ssid + (if last then 1 else 0)
    else if i < |c.name| then 2 * (c.name[i] as int)
    else 0x40
  }

  lemma FieldByte(addr: Bytes, last: bool, i: int)
    requires 0 <= i < 7
    ensures |AddressField(addr, last)| == 7 && 0 <= SsidPart(addr) < 16
    ensures AddressField(addr, last)[i] == if i < 6 then Shifted(CallPart(addr), i) else SsidByte(SsidPart(addr), last)
  {
    SsidFitsFourBits(addr);
    hide SsidPart, CallPart, Shifted, SsidByte;
  }

  lemma FieldOnTheWire(c: Call, last: bool, i: int)
    requires ValidCall(c) && 0 <= i < 7
    ensures |AddressField(CallText(c), last)| == 7 && AddressField(CallText(c), last)[i] == WireByte(c, last, i)
  {
    CallIsSplit(c);
    FieldByte(CallText(c), last, i);
    if i < |c.name| { assert c.name[i] in c.name; }
    hide AddressField, CallPart, SsidPart, CallText;
  }

  lemma FieldLength(addr: Bytes, last: bool)
    ensures |AddressField(addr, last)| == 7
  {
  }

  lemma {:induction false} AddressesLength(texts: seq<Bytes>)
    ensures |Addresses(texts)| == 7 * |texts|
  {
    if texts == [] {
    } else {
      FieldLength(texts[0], |texts| == 1);
      AddressesLength(texts[1..]);
      hide AddressField;
    }
  }

  lemma FirstField(texts: seq<Bytes>)
    requires texts != []
    ensures Addresses(texts) == AddressField(texts[0], |texts| == 1) + Addresses(texts[1..])
    ensures |AddressField(texts[0], |texts| == 1)| == 7
  {
    FieldLength(texts[0], |texts| == 1);
    hide AddressField;
  }

  lemma Behind(f: Bytes, front: Bytes, back: Bytes)
    ensures f + (front + back) == (f + front) + back
    ensures [] + (f + front) == f + front
  {
  }

  lemma {:induction false} FieldInItsPlace(texts: seq<Bytes>, j: nat) returns (front: Bytes, back: Bytes)
    requires j < |texts|
    ensures Addresses(texts) == front + (AddressField(texts[j], j == |texts| - 1) + back)
    ensures |front| == 7 * j
    decreases j
  {
    hide Addresses, AddressField;
    FirstField(texts);
    var f, rest := AddressField(texts[0], |texts| == 1), texts[1..];
    if j == 0 {
      front, back := [], Addresses(rest);
      Behind(f, back, []);
    } else {
      front, back := FieldInItsPlace(rest, j - 1);
      Behind(f, front, AddressField(texts[j], j == |texts| - 1) + back);
      front := f + front;
    }
  }

  lemma TailInItsPlace(head: Bytes, body: Bytes)
    ensures var f := head + [3, 240] + body;
      |f| == |head| + 2 + |body| && f[|head|] == 3 && f[|head| + 1] == 240 && f[|head| + 2..] == body
  {
  }

  lemma WireCalls(l: Line)
    requires ValidLine(l)
    ensures var calls := [l.dst, l.src] + l.digis;
      |WireOrder(l)| == |calls| && forall j | 0 <= j < |calls| :: ValidCall(calls[j]) && WireOrder(l)[j] == CallText(calls[j])
  {
    hide CallText, ValidCall;
  }

  lemma FrameTail(l: Line)
    requires ValidLine(l)
    ensures var f, n := UiFrame(WireOrder(l), l.body), 7 * (2 + |l.digis|);
      |f| == n + 2 + |l.body| && f[n] == 3 && f[n + 1] == 240 && f[n + 2..] == l.body
  {
    WireCalls(l);
    AddressesLength(WireOrder(l));
    assert UiFrame(WireOrder(l), l.body) == Addresses(WireOrder(l)) + [3, 240] + l.body;
    TailInItsPlace(Addresses(WireOrder(l)), l.body);
    hide Addresses, UiFrame, WireOrder, ValidLine;
  }

  lemma AddressByte(texts: seq<Bytes>, j: nat, i: int, tail: Bytes)
    requires j < |texts| && 0 <= i < 7
    ensures |AddressField(texts[j], j == |texts| - 1)| == 7
    ensures 7 * j + i < |Addresses(texts) + tail|
    ensures (Addresses(texts) + tail)[7 * j + i] == AddressField(texts[j], j == |texts| - 1)[i]
  {
    hide Addresses, AddressField;
    FieldLength(texts[j], j == |texts| - 1);
    var front, back := FieldInItsPlace(texts, j);
    var field, all := AddressField(texts[j], j == |texts| - 1), Addresses(texts);
    ByteAt(all, front, field, back, tail, 7 * j + i, i);
  }

  lemma ByteAt(all: Bytes, front: Bytes, field: Bytes, back: Bytes, tail: Bytes, at: int, i: int)
    requires all == front + (field + back) && at == |front| + i && 0 <= i < |field|
    ensures 0 <= at < |all + tail| && (all + tail)[at] == field[i]
  {
  }

  lemma FrameByte(l: Line, j: nat, i: int)
    requires ValidLine(l) && j < 2 + |l.digis| && 0 <= i < 7
    ensures var f, calls := UiFrame(WireOrder(l), l.body), [l.dst, l.src] + l.digis;
      7 * j + i < |f| && f[7 * j + i] == WireByte(calls[j], j == |calls| - 1, i)
  {
    var calls, texts := [l.dst, l.src] + l.digis, WireOrder(l);
    WireCalls(l);
    assert UiFrame(texts, l.body) == Addresses(texts) + ([UI, NO_LAYER_3] + l.body);
    hide Addresses, CallText, AddressField, WireByte, UiFrame, WireOrder, ValidLine, ValidCall;
    AddressByte(texts, j, i, [UI, NO_LAYER_3] + l.body);
    FieldOnTheWire(calls[j], j == |calls| - 1, i);
  }

  /** The whole frame of a line: seven bytes for each address, destination first, then
      source, then the path, the end bit in the last one only; then 3 for a UI frame and
      240 for no layer 3; then the body. */
  lemma FrameOnTheWire(l: Line, j: int, i: int)
    requires ValidLine(l) && 0 <= j < 2 + |l.digis| && 0 <= i < 7
    ensures var f, calls, n := UiFrame(WireOrder(l), l.body), [l.dst, l.src] + l.digis, 7 * (2 + |l.digis|);
      && |f| == n + 2 + |l.body| && f[n] == 3 && f[n + 1] == 240 && f[n + 2..] == l.body
      && f[7 * j + i] == WireByte(calls[j], j == |calls| - 1, i)
  {
    hide UiFrame, WireOrder, WireByte;
    FrameTail(l);
    FrameByte(l, j, i);
  }

  /** What follows the addresses of a received frame: the body after 3 and 240, or after
      3 alone. */
  lemma BodyOfAReceivedFrame(body: Bytes)
    ensures body != [] ==> InfoField([3, 240] + body) == body
    ensures body != [] && body[0] != 240 ==> InfoField([3] + body) == body
    ensures body != [] && body[0] != 3 ==> InfoField(body) == body
  {
    assert ([3, 240] + body)[2..] == body && ([3] + body)[1..] == body;
  }

  /** Capital letters and digits make a call sign, nothing else does. */
  lemma CallCharacters(c: char)
    requires c as int < 256
    ensures CallCharacter(c as int) <==> 'A' <= c <= 'Z' || '0' <= c <= '9'
  {
  }

  function Transmission(lines: seq<Line>): Bytes
    requires forall i | 0 <= i < |lines| :: ValidLine(lines[i])
  {
    if lines == [] then []
    else
      LineIsSent(lines[0]);
      Sent(LineText(lines[0])).wire + Transmission(lines[1..])
  }

  function UiFrames(lines: seq<Line>): seq<Bytes>
    requires forall i | 0 <= i < |lines| :: ValidLine(lines[i])
  {
    seq(|lines|, i requires 0 <= i < |lines| => [0x00] + UiFrame(WireOrder(lines[i]), lines[i].body))
  }

  lemma {:induction false} TransmissionIsFramed(lines: seq<Line>)
    requires forall i | 0 <= i < |lines| :: ValidLine(lines[i])
    ensures Transmission(lines) == AllFramed(UiFrames(lines))
    decreases |lines|
  {
    hide UiFrame, Sent, Framed, LineText, WireOrder;
    if lines == [] {
    } else {
      LineIsSent(lines[0]);
      TransmissionIsFramed(lines[1..]);
      assert UiFrames(lines)[1..] == UiFrames(lines[1..]);
    }
  }

  /** What the reader hands on for the frames of a list of lines. */
  lemma {:induction false} FramesAreReadAs(lines: seq<Line>)
    requires forall i | 0 <= i < |lines| :: ValidLine(lines[i]) && lines[i].body != []
    ensures Packets(UiFrames(lines)) == seq(|lines|, i requires 0 <= i < |lines| => LineText(lines[i]))
    decreases |lines|
  {
    hide UiFrame, LineText, Extracted, WireOrder;
    var texts := seq(|lines|, i requires 0 <= i < |lines| => LineText(lines[i]));
    if lines == [] {
    } else {
      var l := lines[0];
      var frame := UiFrame(WireOrder(l), l.body);
      FrameIsReadAs(l);
      ShortcutNeverMisfires(l);
      LineIsNotEmpty(l);
      assert UiFrames(lines)[0] == [0x00] + frame && Payload([0x00] + frame) == frame;
      assert UiFrames(lines)[1..] == UiFrames(lines[1..]);
      FramesAreReadAs(lines[1..]);
      assert texts[1..] == seq(|lines| - 1, i requires 0 <= i < |lines| - 1 => LineText(lines[1..][i]));
      assert texts == [texts[0]] + texts[1..];
    }
  }

  lemma LineIsNotEmpty(l: Line)
    requires ValidLine(l)
    ensures LineText(l) != [] && LineText(l)[0] == l.src.name[0]
  {
    hide CallText, Join;
    TextIsNotEmpty(l.src);
  }

  /** Lines sent one after the other, behind any line noise, are handed on in
      order and unchanged. `ReadFrames` delivers these packets however the bytes
      were cut into reads. */
  lemma LinesComeBack(lines: seq<Line>, noise: Bytes)
    requires forall i | 0 <= i < |lines| :: ValidLine(lines[i]) && lines[i].body != []
    requires FEND !in noise
    ensures Packets(Frames(IDLE, noise + Transmission(lines)))
         == seq(|lines|, i requires 0 <= i < |lines| => LineText(lines[i]))
  {
    hide *;
    IdleIsQuiet();
    NoiseIsIgnored(IDLE, noise);
    FramesInTwoParts(IDLE, noise, Transmission(lines));
    TransmissionIsFramed(lines);
    FramesAreReadAs(lines);
    FramesArePresent(lines);
    FramingIsTransparent(IDLE, UiFrames(lines));
    assert Frames(IDLE, noise + Transmission(lines)) == UiFrames(lines);
  }

  lemma FramesArePresent(lines: seq<Line>)
    requires forall i | 0 <= i < |lines| :: ValidLine(lines[i])
    ensures forall i | 0 <= i < |UiFrames(lines)| :: UiFrames(lines)[i] != []
  {
  }

  lemma IdleIsQuiet()
    ensures Quiet(IDLE) && !IDLE.inFrame
  {
  }

  lemma OneLineIsOnePacket(l: Line)
    requires ValidLine(l)
    ensures var frame := UiFrame(WireOrder(l), l.body);
      Packets(Frames(IDLE, Transmission([l]))) == Packet([0x00] + frame) && Payload([0x00] + frame) == frame
  {
    var frame := UiFrame(WireOrder(l), l.body);
    assert UiFrames([l]) == [[0x00] + frame];
    FramesArePresent([l]);
    ShortcutNeverMisfires(l);
    IdleIsQuiet();
    assert Packets([[0x00] + frame]) == Packet([0x00] + frame) + Packets([]);
    assert Payload([0x00] + frame) == frame;
    hide *;
    TransmissionIsFramed([l]);
    FramingIsTransparent(IDLE, UiFrames([l]));
  }

  /** One line comes back as itself exactly when its body is not empty. */
  lemma LineComesBackIffItHasABody(l: Line)
    requires ValidLine(l)
    ensures Packets(Frames(IDLE, Transmission([l]))) == [LineText(l)] <==> l.body != []
  {
    hide UiFrame, LineText, Transmission, Frames, WireOrder, Extracted, Payload;
    ShortcutNeverMisfires(l);
    FrameIsReadAs(l);
    LineIsNotEmpty(l);
    OneLineIsOnePacket(l);
    assert l.src.name[0] in l.src.name && CallCharacter(l.src.name[0]);
    if l.body == [] {
      assert l.(body := []) == l;
      BodyIsTheEnd(l, [NO_LAYER_3]);
      assert UiFrame(WireOrder(l), [])[0] != LineText(l)[0];
    }
  }

  lemma BodyIsTheEnd(l: Line, body: Bytes)
    requires ValidLine(l) && l.body == []
    ensures LineText(l.(body := body)) == LineText(l) + body
  {
  }
}
