/** The report codec of `StreamDeck` (src/lib.rs): the feature reports for brightness and
    reset, the paged output reports of key images and LCD regions, the string queries and
    the dispatch of input reports. The HID transport is a log of calls; what a read
    returns is a parameter. */
module Codec {
  import opened Wrappers
  import opened Bytes
  import opened Info
  import opened Paging
  import Util
  import Utf8

  /** `StreamDeckError`; the transport's own errors are one tag. */
  datatype StreamDeckError =
    | HidError
    | Utf8Error
    | ImageError
    | NoScreen
    | InvalidKeyIndex
    | UnrecognizedPid
    | UnsupportedOperation
    | BadData

  /** `StreamDeckInput`: one decoded input report. */
  datatype StreamDeckInput =
    | NoData
    | ButtonStateChange(buttons: seq<bool>)
    | EncoderStateChange(encoders: seq<bool>)
    | EncoderTwist(twists: seq<i8>)
    | TouchScreenPress(x: u16, y: u16)
    | TouchScreenLongPress(x: u16, y: u16)
    | TouchScreenSwipe(start: (u16, u16), end: (u16, u16))

  /** `is_empty`: true exactly for NoData. */
  predicate IsEmpty(input: StreamDeckInput): (empty: bool)
    ensures empty <==> input.NoData?
  {
    input.NoData?
  }

  /** `ImageRect`: a region image for the LCD strip. */
  datatype ImageRect = ImageRect(w: u16, h: u16, data: seq<byte>)

  /** One call into the HID transport. */
  datatype HidCall =
    | Open(vendor: u16, product: u16, serial: string)
    | SendFeature(report: seq<byte>)
    | GetFeature(reportId: byte, length: nat)
    | Write(report: seq<byte>)
    | Read(length: nat)

  /** The payload decoders of report bytes that this model treats as given. */
  datatype InputDecoders = InputDecoders(
    buttonStates: (Kind, seq<byte>) -> seq<bool>,
    lcdInput: seq<byte> -> Result<StreamDeckInput, StreamDeckError>,
    encoderInput: (Kind, seq<byte>) -> Result<StreamDeckInput, StreamDeckError>)

  function Flag(b: bool): (flag: byte) { if b then 1 else 0 }

  /** Families whose control reports are 17 bytes long and whose image header is 16 bytes. */
  predicate IsLegacyFamily(kind: Kind)
  {
    kind == Original || kind == Mini || kind == MiniMk2
  }

  // ---------------------------------------------------------------- feature reports

  /** Length of the brightness and reset feature reports. */
  function FeatureReportLength(kind: Kind): (n: nat)
  {
    if IsLegacyFamily(kind) then 17 else 32
  }

  /** Index of the brightness level within the brightness report. */
  function BrightnessOffset(kind: Kind): (i: nat)
  {
    if IsLegacyFamily(kind) then 5 else 2
  }

  /** `set_brightness`'s buffer: the percentage clamped to 100 after a family-specific prefix,
      then zero padding. */
  function BrightnessReport(kind: Kind, percent: byte): (r: seq<byte>)
    ensures |r| == FeatureReportLength(kind) && BrightnessOffset(kind) < |r|
    ensures r[BrightnessOffset(kind)] == Min(percent, 100) <= 100
    ensures IsLegacyFamily(kind) ==> r[..5] == [0x05, 0x55, 0xaa, 0xd1, 0x01]
    ensures !IsLegacyFamily(kind) ==> r[..2] == [0x03, 0x08]
    ensures forall i :: BrightnessOffset(kind) < i < |r| ==> r[i] == 0
  {
    var level := Min(Max(percent, 0), 100);
    if IsLegacyFamily(kind) then [0x05, 0x55, 0xaa, 0xd1, 0x01, level] + Zeros(11)
    else [0x03, 0x08, level] + Zeros(29)
  }

  /** `reset`'s buffer: a two-byte command then zero padding. */
  function ResetReport(kind: Kind): (r: seq<byte>)
    ensures |r| == FeatureReportLength(kind)
    ensures IsLegacyFamily(kind) ==> r[..2] == [0x0B, 0x63]
    ensures !IsLegacyFamily(kind) ==> r[..2] == [0x03, 0x02]
    ensures forall i :: 2 <= i < |r| ==> r[i] == 0
  {
    if IsLegacyFamily(kind) then [0x0B, 0x63] + Zeros(15) else [0x03, 0x02] + Zeros(30)
  }

  /** Asking for more than 100 percent is asking for 100. */
  lemma BrightnessClamps(kind: Kind, percent: byte)
    requires percent >= 100
    ensures BrightnessReport(kind, percent) == BrightnessReport(kind, 100)
  {
  }

  /** Within 0..=100 the level is carried unchanged, so different levels give different reports. */
  lemma BrightnessInjective(kind: Kind, p: byte, q: byte)
    requires p <= 100 && q <= 100 && p != q
    ensures BrightnessReport(kind, p) != BrightnessReport(kind, q)
  {
    assert BrightnessReport(kind, p)[BrightnessOffset(kind)] != BrightnessReport(kind, q)[BrightnessOffset(kind)];
  }

  /** A reset is never mistaken for a brightness command. */
  lemma ResetIsNotBrightness(kind: Kind, percent: byte)
    ensures ResetReport(kind) != BrightnessReport(kind, percent)
  {
    if IsLegacyFamily(kind) {
      assert ResetReport(kind)[0] != BrightnessReport(kind, percent)[0];
    } else {
      assert ResetReport(kind)[1] != BrightnessReport(kind, percent)[1];
    }
  }

  // ---------------------------------------------------------------- string queries

  /** A string-valued feature report: its id, its requested length, and where the text starts
      in the buffer the transport fills (the id byte followed by `length` bytes). */
  datatype FeatureQuery = FeatureQuery(reportId: byte, length: nat, offset: nat)

  /** The query `serial_number` issues; the text lies inside the reply buffer. */
  function SerialNumberQuery(kind: Kind): (q: FeatureQuery)
    ensures 0 < q.offset < q.length + 1
  {
    match kind
    case Original | Mini => FeatureQuery(0x03, 17, 5)
    case MiniMk2 => FeatureQuery(0x03, 32, 5)
    case _ => FeatureQuery(0x06, 32, 2)
  }

  /** The query `firmware_version` issues; the text lies inside the reply buffer. */
  function FirmwareVersionQuery(kind: Kind): (q: FeatureQuery)
    ensures 0 < q.offset < q.length + 1
  {
    if IsLegacyFamily(kind) then FeatureQuery(0x04, 17, 5) else FeatureQuery(0x05, 32, 6)
  }

  /** The text of a reply: the bytes after the offset, UTF-8 decoded, NULs removed. It fails
      exactly when those bytes are not UTF-8. */
  function FeatureString(q: FeatureQuery, reply: seq<byte>): (r: Result<string, StreamDeckError>)
    requires |reply| == q.length + 1 && q.offset <= |reply|
    ensures r.Success? <==> Utf8.IsUtf8(reply[q.offset..])
    ensures r.Failure? ==> r.error == Utf8Error
    ensures r.Success? ==> '\0' !in r.value && Utf8.Encode(r.value) == Util.StripZeroBytes(reply[q.offset..])
  {
    var text := Util.ExtractStr(reply[q.offset..]);
    if text.Success? then Success(text.value) else Failure(Utf8Error)
  }

  // ---------------------------------------------------------------- input reports

  /** Number of bytes `read_input` asks the transport for. */
  function ReadLength(kind: Kind): (n: nat)
    ensures n >= 2
    ensures kind == Plus ==> n == 14
    ensures kind != Plus && IsLegacyFamily(kind) ==> n == 1 + KeyCount(kind)
    ensures kind != Plus && !IsLegacyFamily(kind) ==> n == 4 + KeyCount(kind)
  {
    match kind
    case Plus => Max(14, 5 + EncoderCount(kind))
    case Original | Mini | MiniMk2 => 1 + KeyCount(kind)
    case _ => 4 + KeyCount(kind)
  }

  /** `read_input` once the transport has filled the buffer: a zero first byte is no data,
      the Plus dispatches on its second byte, every other family reports buttons. */
  function DecodeInput(kind: Kind, data: seq<byte>, dec: InputDecoders): (r: Result<StreamDeckInput, StreamDeckError>)
    requires |data| == ReadLength(kind)
    ensures data[0] == 0 ==> r == Success(NoData)
    ensures data[0] != 0 && kind != Plus ==> r == Success(ButtonStateChange(dec.buttonStates(kind, data)))
    ensures data[0] != 0 && kind == Plus ==>
              && (data[1] == 0 ==> r == Success(ButtonStateChange(dec.buttonStates(kind, data))))
              && (data[1] == 2 ==> r == dec.lcdInput(data))
              && (data[1] == 3 ==> r == dec.encoderInput(kind, data))
              && (data[1] != 0 && data[1] != 2 && data[1] != 3 ==> r == Failure(BadData))
    ensures r == Failure(BadData) && kind != Plus ==> false
  {
    if data[0] == 0 then Success(NoData)
    else if kind == Plus then
      if data[1] == 0 then Success(ButtonStateChange(dec.buttonStates(kind, data)))
      else if data[1] == 2 then dec.lcdInput(data)
      else if data[1] == 3 then dec.encoderInput(kind, data)
      else Failure(BadData)
    else Success(ButtonStateChange(dec.buttonStates(kind, data)))
  }

  /** Only the Plus can reject a report, and only through its sub-type byte or its own
      decoders; a report with a zero first byte is always accepted as empty. */
  lemma DecodeInputErrors(kind: Kind, data: seq<byte>, dec: InputDecoders)
    requires |data| == ReadLength(kind)
    requires DecodeInput(kind, data, dec).Failure?
    ensures kind == Plus && data[0] != 0
    ensures data[1] != 0
    ensures data[1] == 2 ==> dec.lcdInput(data).Failure?
    ensures data[1] == 3 ==> dec.encoderInput(kind, data).Failure?
  {
  }

  /** `is_empty` of what `read_input` returns: on every family but the Plus it holds exactly
      when the first byte is zero. */
  lemma DecodeInputEmpty(kind: Kind, data: seq<byte>, dec: InputDecoders)
    requires |data| == ReadLength(kind) && kind != Plus
    ensures DecodeInput(kind, data, dec).Success?
    ensures IsEmpty(DecodeInput(kind, data, dec).value) <==> data[0] == 0
  {
  }

  // ---------------------------------------------------------------- framing

  /** A fixed-length report: header, then chunk, then zero padding up to `length` bytes. */
  function Frame(header: seq<byte>, chunk: seq<byte>, length: nat): (r: seq<byte>)
    requires |header| + |chunk| <= length
    ensures |r| == length
    ensures r[..|header|] == header
    ensures r[|header|..|header| + |chunk|] == chunk
    ensures forall i :: |header| + |chunk| <= i < length ==> r[i] == 0
  {
    var body := header + chunk;
    var r := body + Zeros(length - |body|);
    assert r[|header|..|header| + |chunk|] == chunk;
    r
  }

  /** The first bytes of a frame are its header. */
  lemma FrameHeader(header: seq<byte>, chunk: seq<byte>, length: nat)
    requires |header| + |chunk| <= length
    ensures forall j :: 0 <= j < |header| ==> Frame(header, chunk, length)[j] == header[j]
  {
    var r := Frame(header, chunk, length);
    forall j | 0 <= j < |header| ensures r[j] == header[j] {
      assert r[..|header|][j] == r[j];
    }
  }

  // ---------------------------------------------------------------- key images

  function ImageReportLength(kind: Kind): (n: nat)
  {
    if kind == Original then 8191 else 1024
  }

  function ImageHeaderLength(kind: Kind): (n: nat)
  {
    if IsLegacyFamily(kind) then 16 else 8
  }

  /** Payload bytes per image report; the Original sends half the image per report. */
  function ImagePayloadLength(kind: Kind, n: nat): (size: nat)
  {
    if kind == Original then n / 2 else ImageReportLength(kind) - ImageHeaderLength(kind)
  }

  /** The image sizes `write_image` can send: on the Original a one-byte image makes no
      progress and more than 8175 bytes in half an image overruns the report. */
  predicate ImageWritable(kind: Kind, n: nat)
  {
    kind == Original ==> n != 1 && n / 2 <= ImageReportLength(kind) - ImageHeaderLength(kind)
  }

  /** The key number sent on the wire: the Original's rows are mirrored. */
  function WireKey(kind: Kind, key: byte): (w: byte)
    requires key < KeyCount(kind)
    ensures w < KeyCount(kind)
  {
    if kind == Original then Util.FlipKeyIndex(kind, key) else key
  }

  /** The header of image page `page` carrying `length` bytes; `key` is the wire key. */
  function ImageHeader(kind: Kind, key: byte, page: nat, length: nat, last: bool): (h: seq<byte>)
    requires key < KeyCount(kind)
    ensures |h| == ImageHeaderLength(kind)
  {
    match kind
    case Original => [0x02, 0x01, AsByte(page + 1), 0, Flag(last), key + 1] + Zeros(10)
    case Mini | MiniMk2 => [0x02, 0x01, AsByte(page), 0, Flag(last), key + 1] + Zeros(10)
    case _ => [0x02, 0x07, key, Flag(last), Lo(length), Hi(length), Lo(page), Hi(page)]
  }

  function ImageReport(kind: Kind, key: byte, page: Page, size: nat): (r: seq<byte>)
    requires key < KeyCount(kind) && |page.chunk| <= size
    requires ImageHeaderLength(kind) + size <= ImageReportLength(kind)
  {
    Frame(ImageHeader(kind, key, page.number, |page.chunk|, page.last), page.chunk, ImageReportLength(kind))
  }

  /** The reports `write_image(key, data)` sends, one per page. */
  function ImageReports(kind: Kind, key: byte, data: seq<byte>): (reports: seq<seq<byte>>)
    requires key < KeyCount(kind) && ImageWritable(kind, |data|)
    ensures |reports| == |ImagePages(kind, data)|
  {
    var size := ImagePayloadLength(kind, |data|);
    var pages := Pages(data, size);
    seq(|pages|, i requires 0 <= i < |pages| => ImageReport(kind, WireKey(kind, key), pages[i], size))
  }

  /** The pages of an image transfer. */
  function ImagePages(kind: Kind, data: seq<byte>): (pages: seq<Page>)
    requires ImageWritable(kind, |data|)
  {
    Pages(data, ImagePayloadLength(kind, |data|))
  }

  /** One image report: full length, the header fields of its family, the chunk after the
      header and zeros after the chunk. */
  lemma ImageReportFields(kind: Kind, key: byte, page: Page, size: nat)
    requires key < KeyCount(kind) && |page.chunk| <= size
    requires ImageHeaderLength(kind) + size <= ImageReportLength(kind)
    ensures var r := ImageReport(kind, key, page, size);
      var h := ImageHeaderLength(kind);
      var len := |page.chunk|;
      && |r| == ImageReportLength(kind)
      && r[h .. h + len] == page.chunk
      && (forall j :: h + len <= j < |r| ==> r[j] == 0)
      && r[0] == 0x02
      && (kind == Original ==>
            r[1] == 0x01 && r[2] == AsByte(page.number + 1) && r[4] == Flag(page.last) && r[5] == key + 1)
      && ((kind == Mini || kind == MiniMk2) ==>
            r[1] == 0x01 && r[2] == AsByte(page.number) && r[4] == Flag(page.last) && r[5] == key + 1)
      && (IsLegacyFamily(kind) ==> r[3] == 0 && forall j :: 6 <= j < 16 ==> r[j] == 0)
      && (!IsLegacyFamily(kind) ==>
            && r[1] == 0x07 && r[2] == key && r[3] == Flag(page.last)
            && Le16(r[4], r[5]) == len && Le16(r[6], r[7]) == page.number % 0x1_0000)
  {
    var hd := ImageHeader(kind, key, page.number, |page.chunk|, page.last);
    FrameHeader(hd, page.chunk, ImageReportLength(kind));
    ImageHeaderFields(kind, key, page.number, |page.chunk|, page.last);
  }

  lemma ImageHeaderFields(kind: Kind, key: byte, page: nat, length: nat, last: bool)
    requires key < KeyCount(kind) && length < 0x1_0000
    ensures var h := ImageHeader(kind, key, page, length, last);
      && h[0] == 0x02
      && (kind == Original ==>
            h[1] == 0x01 && h[2] == AsByte(page + 1) && h[4] == Flag(last) && h[5] == key + 1)
      && ((kind == Mini || kind == MiniMk2) ==>
            h[1] == 0x01 && h[2] == AsByte(page) && h[4] == Flag(last) && h[5] == key + 1)
      && (IsLegacyFamily(kind) ==> h[3] == 0 && forall j :: 6 <= j < 16 ==> h[j] == 0)
      && (!IsLegacyFamily(kind) ==>
            && h[1] == 0x07 && h[2] == key && h[3] == Flag(last)
            && Le16(h[4], h[5]) == length && Le16(h[6], h[7]) == page % 0x1_0000)
  {
    LoHiRoundTrip(length);
    LoHiWrap(page);
  }

  lemma ImageReportsAt(kind: Kind, key: byte, data: seq<byte>, i: nat)
    requires key < KeyCount(kind) && ImageWritable(kind, |data|)
    requires i < |ImageReports(kind, key, data)|
    ensures |ImageReports(kind, key, data)| == |ImagePages(kind, data)|
    ensures ImageReports(kind, key, data)[i]
         == ImageReport(kind, WireKey(kind, key), ImagePages(kind, data)[i], ImagePayloadLength(kind, |data|))
  {
  }

  /** Image report i carries bytes [i * payload, i * payload + len) of the image after its
      header, then zeros; every report but the last is full. */
  lemma ImageReportPayload(kind: Kind, key: byte, data: seq<byte>, i: nat)
    requires key < KeyCount(kind) && ImageWritable(kind, |data|)
    requires i < |ImageReports(kind, key, data)|
    ensures var r := ImageReports(kind, key, data)[i];
      var size := ImagePayloadLength(kind, |data|);
      var h := ImageHeaderLength(kind);
      var len := |ImagePages(kind, data)[i].chunk|;
      && |r| == ImageReportLength(kind)
      && 0 < len <= size && h + len <= |r|
      && (i < |ImageReports(kind, key, data)| - 1 ==> len == size)
      && 0 <= i * size && i * size + len <= |data|
      && r[h .. h + len] == data[i * size .. i * size + len]
      && (forall j :: h + len <= j < |r| ==> r[j] == 0)
  {
    var size := ImagePayloadLength(kind, |data|);
    var page := ImagePages(kind, data)[i];
    var r := ImageReports(kind, key, data)[i];
    var h := ImageHeaderLength(kind);
    var len := |page.chunk|;
    ImageReportsAt(kind, key, data, i);
    ImageReportFields(kind, WireKey(kind, key), page, size);
    PagesFromAt(data, size, 0, i);
  }

  /** The header of image report i: page number, last-page flag (set on the final report only)
      and key, laid out as the family expects. */
  lemma ImageReportHeader(kind: Kind, key: byte, data: seq<byte>, i: nat)
    requires key < KeyCount(kind) && ImageWritable(kind, |data|)
    requires i < |ImageReports(kind, key, data)|
    ensures var r := ImageReports(kind, key, data)[i];
      var last := Flag(i == |ImageReports(kind, key, data)| - 1);
      && r[0] == 0x02
      && (kind == Original ==>
            r[1] == 0x01 && r[2] == AsByte(i + 1) && r[4] == last && r[5] == Util.FlipKeyIndex(kind, key) + 1)
      && ((kind == Mini || kind == MiniMk2) ==>
            r[1] == 0x01 && r[2] == AsByte(i) && r[4] == last && r[5] == key + 1)
      && (IsLegacyFamily(kind) ==> r[3] == 0 && forall j :: 6 <= j < 16 ==> r[j] == 0)
      && (!IsLegacyFamily(kind) ==>
            && r[1] == 0x07 && r[2] == key && r[3] == last
            && Le16(r[4], r[5]) == |ImagePages(kind, data)[i].chunk| && Le16(r[6], r[7]) == i % 0x1_0000)
  {
    ImageReportsAt(kind, key, data, i);
    ImageReportFields(kind, WireKey(kind, key), ImagePages(kind, data)[i], ImagePayloadLength(kind, |data|));
  }

  /** An image of n bytes takes ceil(n / payload) reports; the Original always takes two
      reports for an even size and three for an odd one. */
  lemma ImageReportCount(kind: Kind, key: byte, data: seq<byte>)
    requires key < KeyCount(kind) && ImageWritable(kind, |data|) && |data| > 0
    ensures var size := ImagePayloadLength(kind, |data|);
      |ImageReports(kind, key, data)| == (|data| + size - 1) / size
    ensures kind == Original ==> |ImageReports(kind, key, data)| == if |data| % 2 == 0 then 2 else 3
  {
    var n := |data|;
    var size := ImagePayloadLength(kind, n);
    PagesCount(data, size, 0);
    if kind == Original {
      if n % 2 == 0 {
        DivUnique(n + size - 1, size, 2, size - 1);
      } else {
        DivUnique(n + size - 1, size, 3, 0);
      }
    }
  }

  /** The image slices of the reports, taken in order, are the image. */
  lemma ImageReportsReassemble(kind: Kind, key: byte, data: seq<byte>)
    requires key < KeyCount(kind) && ImageWritable(kind, |data|)
    ensures Chunks(ImagePages(kind, data)) == data
    ensures forall i :: 0 <= i < |ImageReports(kind, key, data)| ==>
              var h := ImageHeaderLength(kind);
              ImageReports(kind, key, data)[i][h .. h + |ImagePages(kind, data)[i].chunk|] == ImagePages(kind, data)[i].chunk
  {
    PagesReassemble(data, ImagePayloadLength(kind, |data|), 0);
  }

  // ---------------------------------------------------------------- LCD regions

  const LCD_REPORT_LENGTH: nat := 1024
  const LCD_HEADER_LENGTH: nat := 16
  const LCD_PAYLOAD_LENGTH: nat := LCD_REPORT_LENGTH - LCD_HEADER_LENGTH

  function LcdHeader(x: u16, y: u16, rect: ImageRect, page: nat, length: nat, last: bool): (h: seq<byte>)
    ensures |h| == LCD_HEADER_LENGTH
  {
    [0x02, 0x0c, Lo(x), Hi(x), Lo(y), Hi(y), Lo(rect.w), Hi(rect.w), Lo(rect.h), Hi(rect.h),
     Flag(last), Lo(page), Hi(page), Lo(length), Hi(length), 0]
  }

  function LcdReport(x: u16, y: u16, rect: ImageRect, page: Page): (report: seq<byte>)
    requires |page.chunk| <= LCD_PAYLOAD_LENGTH
  {
    Frame(LcdHeader(x, y, rect, page.number, |page.chunk|, page.last), page.chunk, LCD_REPORT_LENGTH)
  }

  /** The reports `write_lcd(x, y, rect)` sends, one per page of `rect.data`. */
  function LcdReports(x: u16, y: u16, rect: ImageRect): (reports: seq<seq<byte>>)
  {
    var pages := Pages(rect.data, LCD_PAYLOAD_LENGTH);
    seq(|pages|, i requires 0 <= i < |pages| => LcdReport(x, y, rect, pages[i]))
  }

  /** One LCD report: 1024 bytes, the header fields in little-endian halves, the chunk after
      the 16-byte header and zeros after the chunk. */
  lemma LcdReportFields(x: u16, y: u16, rect: ImageRect, page: Page)
    requires |page.chunk| <= LCD_PAYLOAD_LENGTH
    ensures var r := LcdReport(x, y, rect, page);
      var len := |page.chunk|;
      && |r| == 1024
      && r[0] == 0x02 && r[1] == 0x0c && r[15] == 0
      && Le16(r[2], r[3]) == x && Le16(r[4], r[5]) == y
      && Le16(r[6], r[7]) == rect.w && Le16(r[8], r[9]) == rect.h
      && r[10] == Flag(page.last)
      && Le16(r[11], r[12]) == page.number % 0x1_0000
      && Le16(r[13], r[14]) == len
      && r[16 .. 16 + len] == page.chunk
      && (forall j :: 16 + len <= j < 1024 ==> r[j] == 0)
  {
    var hd := LcdHeader(x, y, rect, page.number, |page.chunk|, page.last);
    FrameHeader(hd, page.chunk, LCD_REPORT_LENGTH);
    LcdHeaderFields(x, y, rect, page.number, |page.chunk|, page.last);
  }

  lemma LcdHeaderFields(x: u16, y: u16, rect: ImageRect, page: nat, length: nat, last: bool)
    requires length < 0x1_0000
    ensures var h := LcdHeader(x, y, rect, page, length, last);
      && h[0] == 0x02 && h[1] == 0x0c && h[15] == 0
      && Le16(h[2], h[3]) == x && Le16(h[4], h[5]) == y
      && Le16(h[6], h[7]) == rect.w && Le16(h[8], h[9]) == rect.h
      && h[10] == Flag(last)
      && Le16(h[11], h[12]) == page % 0x1_0000
      && Le16(h[13], h[14]) == length
  {
    var h := LcdHeader(x, y, rect, page, length, last);
    assert Le16(h[2], h[3]) == x by { LoHiRoundTrip(x); }
    assert Le16(h[4], h[5]) == y by { LoHiRoundTrip(y); }
    assert Le16(h[6], h[7]) == rect.w by { LoHiRoundTrip(rect.w); }
    assert Le16(h[8], h[9]) == rect.h by { LoHiRoundTrip(rect.h); }
    assert Le16(h[11], h[12]) == page % 0x1_0000 by { LoHiWrap(page); }
    assert Le16(h[13], h[14]) == length by { LoHiRoundTrip(length); }
  }

  lemma LcdReportsAt(x: u16, y: u16, rect: ImageRect, i: nat)
    requires i < |LcdReports(x, y, rect)|
    ensures |LcdReports(x, y, rect)| == |Pages(rect.data, LCD_PAYLOAD_LENGTH)|
    ensures LcdReports(x, y, rect)[i] == LcdReport(x, y, rect, Pages(rect.data, LCD_PAYLOAD_LENGTH)[i])
  {
  }

  /** LCD report i: the last flag is set exactly on the final report, which is exactly the one
      whose remaining byte count fits in 1008, and the page field is i. */
  lemma LcdReportLast(x: u16, y: u16, rect: ImageRect, i: nat)
    requires i < |LcdReports(x, y, rect)|
    ensures var r := LcdReports(x, y, rect)[i];
      var n := |LcdReports(x, y, rect)|;
      && |r| == 1024
      && (r[10] == 1 <==> i == n - 1) && (r[10] == 0 <==> i < n - 1)
      && (r[10] == 1 <==> |rect.data| - i * 1008 <= 1008)
      && Le16(r[11], r[12]) == i % 0x1_0000
  {
    var pages := Pages(rect.data, LCD_PAYLOAD_LENGTH);
    LcdReportsAt(x, y, rect, i);
    LcdReportFields(x, y, rect, pages[i]);
    PagesFromAt(rect.data, LCD_PAYLOAD_LENGTH, 0, i);
  }

  /** `r` is an LCD report whose length field names a chunk of `data` starting at byte `sent`,
      placed right after the header; `full` says the chunk is a whole 1008-byte payload. */
  ghost predicate CarriesRegionChunk(r: seq<byte>, data: seq<byte>, sent: nat, full: bool)
  {
    && |r| == LCD_REPORT_LENGTH
    && var len := Le16(r[13], r[14]);
       && 0 < len <= LCD_PAYLOAD_LENGTH && (full ==> len == LCD_PAYLOAD_LENGTH)
       && sent + len <= |data|
       && r[LCD_HEADER_LENGTH .. LCD_HEADER_LENGTH + len] == data[sent .. sent + len]
  }

  /** LCD report i: the length field gives the chunk, which is full on every report but the
      last and is bytes [i * 1008, i * 1008 + len) of the region. */
  lemma LcdReportPayload(x: u16, y: u16, rect: ImageRect, i: nat)
    requires i < |LcdReports(x, y, rect)|
    ensures CarriesRegionChunk(LcdReports(x, y, rect)[i], rect.data, i * LCD_PAYLOAD_LENGTH,
                               i < |LcdReports(x, y, rect)| - 1)
  {
    var pages := Pages(rect.data, LCD_PAYLOAD_LENGTH);
    var r := LcdReports(x, y, rect)[i];
    var chunk := pages[i].chunk;
    LcdReportsAt(x, y, rect, i);
    LcdReportChunk(x, y, rect, pages[i]);
    PagesFromAt(rect.data, LCD_PAYLOAD_LENGTH, 0, i);
  }

  lemma LcdReportChunk(x: u16, y: u16, rect: ImageRect, page: Page)
    requires |page.chunk| <= LCD_PAYLOAD_LENGTH
    ensures var r := LcdReport(x, y, rect, page);
      |r| == 1024 && Le16(r[13], r[14]) == |page.chunk| && r[16 .. 16 + |page.chunk|] == page.chunk
  {
    LcdReportFields(x, y, rect, page);
  }

  /** Reading each LCD report's length field and taking that many bytes after the header,
      in report order, gives back the region data. */
  function LengthFramedPayloads(reports: seq<seq<byte>>): (payload: seq<byte>)
  {
    if reports == [] then []
    else
      var r := reports[0];
      var body := if |r| >= 16 then (var len := Le16(r[13], r[14]); if 16 + len <= |r| then r[16 .. 16 + len] else []) else [];
      body + LengthFramedPayloads(reports[1..])
  }

  lemma {:induction false} LcdPayloadsFrom(x: u16, y: u16, rect: ImageRect, k: nat)
    requires k <= |LcdReports(x, y, rect)|
    ensures LengthFramedPayloads(LcdReports(x, y, rect)[k..]) == Chunks(Pages(rect.data, LCD_PAYLOAD_LENGTH)[k..])
    decreases |LcdReports(x, y, rect)| - k
  {
    var rs := LcdReports(x, y, rect);
    var pages := Pages(rect.data, LCD_PAYLOAD_LENGTH);
    if k < |rs| {
      LcdReportsAt(x, y, rect, k);
      LcdReportFields(x, y, rect, pages[k]);
      LcdPayloadsFrom(x, y, rect, k + 1);
      assert rs[k..][1..] == rs[k + 1..];
      assert pages[k..][1..] == pages[k + 1..];
    } else {
      assert rs[k..] == [];
      assert pages[k..] == [];
    }
  }

  /** A receiver that trusts the length fields reassembles exactly the region data. */
  lemma LcdReportsReassemble(x: u16, y: u16, rect: ImageRect)
    ensures LengthFramedPayloads(LcdReports(x, y, rect)) == rect.data
  {
    LcdPayloadsFrom(x, y, rect, 0);
    PagesReassemble(rect.data, LCD_PAYLOAD_LENGTH, 0);
    assert LcdReports(x, y, rect)[0..] == LcdReports(x, y, rect);
    assert Pages(rect.data, LCD_PAYLOAD_LENGTH)[0..] == Pages(rect.data, LCD_PAYLOAD_LENGTH);
  }

  // ---------------------------------------------------------------- the device

  /** The buffer `write_image` assembles for page `page` (header, slice, zero padding) is
      report `page` of the transfer. */
  lemma ImageLoopReport(kind: Kind, key: byte, data: seq<byte>, page: nat, sent: nat, len: nat, last: bool)
    requires key < KeyCount(kind) && ImageWritable(kind, |data|)
    requires page < |Pages(data, ImagePayloadLength(kind, |data|))| && sent + len <= |data|
    requires Pages(data, ImagePayloadLength(kind, |data|))[page] == Page(page, data[sent .. sent + len], last)
    ensures var body := ImageHeader(kind, WireKey(kind, key), page, len, last) + data[sent .. sent + len];
      body + Zeros(ImageReportLength(kind) - |body|) == ImageReports(kind, key, data)[page]
  {
    ImageReportsAt(kind, key, data, page);
    assert |data[sent .. sent + len]| == len;
  }

  /** The buffer `write_lcd` assembles for page `page` is report `page` of the transfer. */
  lemma LcdLoopReport(x: u16, y: u16, rect: ImageRect, page: nat, sent: nat, len: nat, last: bool)
    requires page < |Pages(rect.data, LCD_PAYLOAD_LENGTH)| && sent + len <= |rect.data|
    requires Pages(rect.data, LCD_PAYLOAD_LENGTH)[page] == Page(page, rect.data[sent .. sent + len], last)
    ensures var body := LcdHeader(x, y, rect, page, len, last) + rect.data[sent .. sent + len];
      body + Zeros(LCD_REPORT_LENGTH - |body|) == LcdReports(x, y, rect)[page]
  {
    LcdReportsAt(x, y, rect, page);
    assert |rect.data[sent .. sent + len]| == len;
  }

  /** One pass of the `write_image` loop: the header of page `page`, the next
      min(remaining, payload) image bytes and zero padding make report `page`. */
  method BuildImageReport(kind: Kind, key: byte, data: seq<byte>, page: nat, remaining: nat)
    returns (buf: seq<byte>)
    requires key < KeyCount(kind) && ImageWritable(kind, |data|)
    requires Progress(data, ImagePayloadLength(kind, |data|), page, remaining) && remaining > 0
    ensures page < |ImageReports(kind, key, data)| && buf == ImageReports(kind, key, data)[page]
  {
    var payloadLength := ImagePayloadLength(kind, |data|);
    var thisLength := Min(remaining, payloadLength);
    var bytesSent := page * payloadLength;
    ProgressStep(data, payloadLength, page, remaining);
    ImageLoopReport(kind, key, data, page, bytesSent, thisLength, thisLength == remaining);
    buf := ImageHeader(kind, WireKey(kind, key), page, thisLength, thisLength == remaining);
    buf := buf + data[bytesSent .. bytesSent + thisLength];
    buf := buf + Zeros(ImageReportLength(kind) - |buf|);
  }

  /** One pass of the `write_lcd` loop: the header of page `page`, the next
      min(remaining, 1008) region bytes and zero padding make report `page`. */
  method BuildLcdReport(x: u16, y: u16, rect: ImageRect, page: nat, remaining: nat)
    returns (buf: seq<byte>)
    requires Progress(rect.data, LCD_PAYLOAD_LENGTH, page, remaining) && remaining > 0
    ensures page < |LcdReports(x, y, rect)| && buf == LcdReports(x, y, rect)[page]
  {
    var thisLength := Min(remaining, LCD_PAYLOAD_LENGTH);
    var bytesSent := page * LCD_PAYLOAD_LENGTH;
    ProgressStep(rect.data, LCD_PAYLOAD_LENGTH, page, remaining);
    LcdLoopReport(x, y, rect, page, bytesSent, thisLength, remaining <= LCD_PAYLOAD_LENGTH);
    buf := LcdHeader(x, y, rect, page, thisLength, remaining <= LCD_PAYLOAD_LENGTH);
    buf := buf + rect.data[bytesSent .. bytesSent + thisLength];
    buf := buf + Zeros(LCD_REPORT_LENGTH - |buf|);
  }

  function Writes(reports: seq<seq<byte>>): (calls: seq<HidCall>)
    ensures |calls| == |reports| && forall i :: 0 <= i < |reports| ==> calls[i] == Write(reports[i])
  {
    seq(|reports|, i requires 0 <= i < |reports| => Write(reports[i]))
  }

  /** Writing report k after reports 0 .. k-1 extends the log to reports 0 .. k. */
  lemma WritesStep(before: seq<HidCall>, log: seq<HidCall>, reports: seq<seq<byte>>, k: nat, buf: seq<byte>)
    requires k < |reports| && buf == reports[k]
    requires log == before + Writes(reports[..k])
    ensures log + [Write(buf)] == before + Writes(reports[..k + 1])
  {
    assert Writes(reports[..k + 1]) == Writes(reports[..k]) + [Write(reports[k])];
  }

  /** `StreamDeck`: a connected device. `log` lists the transport calls made so far. */
  class StreamDeck {
    const kind: Kind
    var log: seq<HidCall>

    /** `connect`: opens the device by vendor ID, the family's product ID and the serial. */
    constructor Connect(kind: Kind, serial: string)
      ensures this.kind == kind
      ensures log == [Open(ELGATO_VENDOR_ID, ProductId(kind), serial)]
    {
      this.kind := kind;
      log := [Open(ELGATO_VENDOR_ID, ProductId(kind), serial)];
    }

    /** `serial_number`; `reply` is the buffer the transport fills. */
    method SerialNumber(reply: seq<byte>) returns (r: Result<string, StreamDeckError>)
      requires |reply| == SerialNumberQuery(kind).length + 1
      modifies this
      ensures log == old(log) + [GetFeature(SerialNumberQuery(kind).reportId, SerialNumberQuery(kind).length)]
      ensures r == FeatureString(SerialNumberQuery(kind), reply)
    {
      var q := SerialNumberQuery(kind);
      log := log + [GetFeature(q.reportId, q.length)];
      r := FeatureString(q, reply);
    }

    /** `firmware_version`; `reply` is the buffer the transport fills. */
    method FirmwareVersion(reply: seq<byte>) returns (r: Result<string, StreamDeckError>)
      requires |reply| == FirmwareVersionQuery(kind).length + 1
      modifies this
      ensures log == old(log) + [GetFeature(FirmwareVersionQuery(kind).reportId, FirmwareVersionQuery(kind).length)]
      ensures r == FeatureString(FirmwareVersionQuery(kind), reply)
    {
      var q := FirmwareVersionQuery(kind);
      log := log + [GetFeature(q.reportId, q.length)];
      r := FeatureString(q, reply);
    }

    /** `read_input`; `data` is the buffer the transport fills. */
    method ReadInput(data: seq<byte>, dec: InputDecoders) returns (r: Result<StreamDeckInput, StreamDeckError>)
      requires |data| == ReadLength(kind)
      modifies this
      ensures log == old(log) + [Read(ReadLength(kind))]
      ensures r == DecodeInput(kind, data, dec)
    {
      log := log + [Read(ReadLength(kind))];
      r := DecodeInput(kind, data, dec);
    }

    /** `reset`. */
    method Reset() returns (r: Outcome<StreamDeckError>)
      modifies this
      ensures r == Pass && log == old(log) + [SendFeature(ResetReport(kind))]
    {
      var buf: seq<byte>;
      if IsLegacyFamily(kind) {
        buf := [0x0B, 0x63];
        buf := buf + Zeros(15);
      } else {
        buf := [0x03, 0x02];
        buf := buf + Zeros(30);
      }
      log := log + [SendFeature(buf)];
      r := Pass;
    }

    /** `set_brightness`. */
    method SetBrightness(percent: byte) returns (r: Outcome<StreamDeckError>)
      modifies this
      ensures r == Pass && log == old(log) + [SendFeature(BrightnessReport(kind, percent))]
    {
      var level := Min(Max(percent, 0), 100);
      var buf: seq<byte>;
      if IsLegacyFamily(kind) {
        buf := [0x05, 0x55, 0xaa, 0xd1, 0x01, level];
        buf := buf + Zeros(11);
      } else {
        buf := [0x03, 0x08, level];
        buf := buf + Zeros(29);
      }
      log := log + [SendFeature(buf)];
      r := Pass;
    }

    /** `write_image`: rejects a key outside the grid, then a family without displays, and
      otherwise sends the image page by page. */
    method WriteImage(key: byte, imageData: seq<byte>) returns (r: Outcome<StreamDeckError>)
      requires key < KeyCount(kind) ==> ImageWritable(kind, |imageData|)
      modifies this
      ensures key >= KeyCount(kind) ==> r == Fail(InvalidKeyIndex) && log == old(log)
      ensures key < KeyCount(kind) && !IsVisual(kind) ==> r == Fail(NoScreen) && log == old(log)
      ensures key < KeyCount(kind) && IsVisual(kind) ==>
                r == Pass && log == old(log) + Writes(ImageReports(kind, key, imageData))
    {
      if key >= KeyCount(kind) {
        return Fail(InvalidKeyIndex);
      }
      if !IsVisual(kind) {
        return Fail(NoScreen);
      }
      var payloadLength := ImagePayloadLength(kind, |imageData|);
      ghost var reports := ImageReports(kind, key, imageData);
      var pageNumber: nat := 0;
      var bytesRemaining: nat := |imageData|;
      while bytesRemaining > 0
        invariant Progress(imageData, payloadLength, pageNumber, bytesRemaining)
        invariant pageNumber <= |reports|
        invariant log == old(log) + Writes(reports[..pageNumber])
        decreases bytesRemaining
      {
        var thisLength := Min(bytesRemaining, payloadLength);
        ProgressStep(imageData, payloadLength, pageNumber, bytesRemaining);
        var buf := BuildImageReport(kind, key, imageData, pageNumber, bytesRemaining);
        WritesStep(old(log), log, reports, pageNumber, buf);
        log := log + [Write(buf)];
        bytesRemaining := bytesRemaining - thisLength;
        pageNumber := pageNumber + 1;
      }
      assert reports[..pageNumber] == reports;
      return Pass;
    }

    /** `write_lcd`: only the Plus has an LCD strip; the region is sent page by page. */
    method WriteLcd(x: u16, y: u16, rect: ImageRect) returns (r: Outcome<StreamDeckError>)
      modifies this
      ensures kind != Plus ==> r == Fail(UnsupportedOperation) && log == old(log)
      ensures kind == Plus ==> r == Pass && log == old(log) + Writes(LcdReports(x, y, rect))
    {
      if kind != Plus {
        return Fail(UnsupportedOperation);
      }
      var payloadLength := LCD_PAYLOAD_LENGTH;
      ghost var reports := LcdReports(x, y, rect);
      var pageNumber: nat := 0;
      var bytesRemaining: nat := |rect.data|;
      while bytesRemaining > 0
        invariant Progress(rect.data, payloadLength, pageNumber, bytesRemaining)
        invariant pageNumber <= |reports|
        invariant log == old(log) + Writes(reports[..pageNumber])
        decreases bytesRemaining
      {
        var thisLength := Min(bytesRemaining, payloadLength);
        ProgressStep(rect.data, payloadLength, pageNumber, bytesRemaining);
        var buf := BuildLcdReport(x, y, rect, pageNumber, bytesRemaining);
        WritesStep(old(log), log, reports, pageNumber, buf);
        log := log + [Write(buf)];
        bytesRemaining := bytesRemaining - thisLength;
        pageNumber := pageNumber + 1;
      }
      assert reports[..pageNumber] == reports;
      return Pass;
    }
  }
}
