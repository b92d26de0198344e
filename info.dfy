/** The capability table: per-family constants of every supported Stream Deck (src/info.rs). */
module Info {
  import opened Wrappers
  import opened Bytes

  /** HID vendor ID used by every Elgato device. */
  const ELGATO_VENDOR_ID: u16 := 0x0fd9

  const PID_STREAMDECK_ORIGINAL: u16 := 0x0060
  const PID_STREAMDECK_ORIGINAL_V2: u16 := 0x006d
  const PID_STREAMDECK_MINI: u16 := 0x0063
  const PID_STREAMDECK_XL: u16 := 0x006c
  const PID_STREAMDECK_XL_V2: u16 := 0x008f
  const PID_STREAMDECK_MK2: u16 := 0x0080
  const PID_STREAMDECK_MINI_MK2: u16 := 0x0090
  const PID_STREAMDECK_PEDAL: u16 := 0x0086
  const PID_STREAMDECK_PLUS: u16 := 0x0084

  /** The device families. */
  datatype Kind = Original | OriginalV2 | Mini | Xl | XlV2 | Mk2 | MiniMk2 | Pedal | Plus

  datatype ImageRotation = Rot0 | Rot90 | Rot180 | Rot270

  datatype ImageMirroring = NoMirror | MirrorX | MirrorY | MirrorBoth

  datatype ImageMode = NoImage | Bmp | Jpeg

  /** Geometry and encoding of a key image: mode, (width, height), rotation, mirroring. */
  datatype ImageFormat = ImageFormat(mode: ImageMode, size: (nat, nat), rotation: ImageRotation, mirror: ImageMirroring)

  /** The product identifiers the table knows. */
  function ProductIds(): (pids: set<u16>)
  {
    {PID_STREAMDECK_ORIGINAL, PID_STREAMDECK_ORIGINAL_V2, PID_STREAMDECK_MINI, PID_STREAMDECK_XL,
     PID_STREAMDECK_XL_V2, PID_STREAMDECK_MK2, PID_STREAMDECK_MINI_MK2, PID_STREAMDECK_PEDAL,
     PID_STREAMDECK_PLUS}
  }

  /** Product ID of a family. */
  function ProductId(k: Kind): (pid: u16)
    ensures pid in ProductIds()
  {
    match k
    case Original => PID_STREAMDECK_ORIGINAL
    case OriginalV2 => PID_STREAMDECK_ORIGINAL_V2
    case Mini => PID_STREAMDECK_MINI
    case Xl => PID_STREAMDECK_XL
    case XlV2 => PID_STREAMDECK_XL_V2
    case Mk2 => PID_STREAMDECK_MK2
    case MiniMk2 => PID_STREAMDECK_MINI_MK2
    case Pedal => PID_STREAMDECK_PEDAL
    case Plus => PID_STREAMDECK_PLUS
  }

  /** Family of a product ID; unknown IDs give None. It is the inverse of ProductId. */
  function FromPid(pid: u16): (r: Option<Kind>)
    ensures forall k :: r == Some(k) <==> ProductId(k) == pid
    ensures r.None? <==> pid !in ProductIds()
  {
    if pid == PID_STREAMDECK_ORIGINAL then Some(Original)
    else if pid == PID_STREAMDECK_ORIGINAL_V2 then Some(OriginalV2)
    else if pid == PID_STREAMDECK_MINI then Some(Mini)
    else if pid == PID_STREAMDECK_XL then Some(Xl)
    else if pid == PID_STREAMDECK_XL_V2 then Some(XlV2)
    else if pid == PID_STREAMDECK_MK2 then Some(Mk2)
    else if pid == PID_STREAMDECK_MINI_MK2 then Some(MiniMk2)
    else if pid == PID_STREAMDECK_PEDAL then Some(Pedal)
    else if pid == PID_STREAMDECK_PLUS then Some(Plus)
    else None
  }

  /** Vendor ID of a family: the same for all of them. */
  function VendorId(k: Kind): (vid: u16)
    ensures vid == 0x0fd9
  {
    ELGATO_VENDOR_ID
  }

  function RowCount(k: Kind): (r: byte)
    ensures r > 0
  {
    match k
    case Original | OriginalV2 | Mk2 => 3
    case Mini | MiniMk2 => 2
    case Xl | XlV2 => 4
    case Pedal => 1
    case Plus => 2
  }

  function ColumnCount(k: Kind): (c: byte)
    ensures c > 0
  {
    match k
    case Original | OriginalV2 | Mk2 => 5
    case Mini | MiniMk2 => 3
    case Xl | XlV2 => 8
    case Pedal => 3
    case Plus => 4
  }

  /** Number of keys; the keys fill the row-by-column grid exactly. */
  function KeyCount(k: Kind): (n: byte)
    ensures n == RowCount(k) * ColumnCount(k)
  {
    match k
    case Original | OriginalV2 | Mk2 => 15
    case Mini | MiniMk2 => 6
    case Xl | XlV2 => 32
    case Pedal => 3
    case Plus => 8
  }

  /** Number of rotary encoders: only the Plus has any. */
  function EncoderCount(k: Kind): (n: byte)
    ensures n > 0 <==> k == Plus
  {
    match k
    case Plus => 4
    case _ => 0
  }

  /** Pixel size of the LCD strip, for the families that have one. */
  function LcdStripSize(k: Kind): (s: Option<(nat, nat)>)
    ensures s.Some? <==> EncoderCount(k) > 0
  {
    match k
    case Plus => Some((800, 100))
    case _ => None
  }

  /** Whether the keys have displays. */
  function IsVisual(k: Kind): (visual: bool)
    ensures visual <==> k != Pedal
  {
    match k
    case Pedal => false
    case _ => true
  }

  /** Key layout as (rows, columns). */
  function KeyLayout(k: Kind): (layout: (byte, byte))
    ensures layout.0 == RowCount(k) && layout.1 == ColumnCount(k)
    ensures layout.0 * layout.1 == KeyCount(k)
  {
    (RowCount(k), ColumnCount(k))
  }

  /** The format of a family without key displays. */
  function DefaultImageFormat(): (f: ImageFormat)
    ensures f.mode == NoImage && f.size == (0, 0) && f.rotation == Rot0 && f.mirror == NoMirror
  {
    ImageFormat(NoImage, (0, 0), Rot0, NoMirror)
  }

  /** Key-image format; a visual family has a square image encoded as BMP or JPEG,
      the others the default format. */
  function KeyImageFormat(k: Kind): (f: ImageFormat)
    ensures IsVisual(k) ==> f.size.0 == f.size.1 > 0 && (f.mode == Bmp || f.mode == Jpeg)
    ensures !IsVisual(k) ==> f == DefaultImageFormat()
  {
    match k
    case Original => ImageFormat(Bmp, (72, 72), Rot0, MirrorBoth)
    case OriginalV2 | Mk2 => ImageFormat(Jpeg, (72, 72), Rot0, MirrorBoth)
    case Mini | MiniMk2 => ImageFormat(Bmp, (80, 80), Rot90, MirrorY)
    case Xl | XlV2 => ImageFormat(Jpeg, (96, 96), Rot0, MirrorBoth)
    case Plus => ImageFormat(Jpeg, (120, 120), Rot0, NoMirror)
    case Pedal => DefaultImageFormat()
  }

  /** Every family is addressed as (0x0fd9, its product ID), and that ID resolves back to it. */
  lemma IdentityRoundTrip(k: Kind)
    ensures VendorId(k) == 0x0fd9
    ensures FromPid(ProductId(k)) == Some(k)
  {
  }

  /** Distinct families have distinct product IDs. */
  lemma ProductIdInjective(k1: Kind, k2: Kind)
    requires ProductId(k1) == ProductId(k2)
    ensures k1 == k2
  {
    assert FromPid(ProductId(k1)) == Some(k1);
  }

  /** Only the Plus has encoders and an LCD strip: four encoders and an 800x100 strip. */
  lemma PlusOnlyExtras(k: Kind)
    ensures k == Plus ==> EncoderCount(k) == 4 && LcdStripSize(k) == Some((800, 100))
    ensures k != Plus ==> EncoderCount(k) == 0 && LcdStripSize(k) == None
  {
  }

  /** Only the Pedal lacks key displays. */
  lemma OnlyPedalIsBlind(k: Kind)
    ensures !IsVisual(k) <==> k == Pedal
    ensures KeyImageFormat(k).mode == NoImage <==> k == Pedal
  {
  }
}
