/** Pure helpers of src/util.rs: the horizontal key mirror of the Original and the
    NUL-stripping string extraction used for feature-report strings. */
module Util {
  import opened Wrappers
  import opened Bytes
  import opened Info
  import Utf8

  /** `flip_key_index`: mirrors a key within its row. The u8 sum wraps as in a release build;
      it cannot overflow for a key of the grid. */
  function FlipKeyIndex(kind: Kind, key: byte): (r: byte)
    ensures key < KeyCount(kind) ==>
              && r < KeyCount(kind)
              && r / ColumnCount(kind) == key / ColumnCount(kind)
              && r % ColumnCount(kind) == ColumnCount(kind) - 1 - key % ColumnCount(kind)
  {
    var cols := ColumnCount(kind) as int;
    var col := key % cols;
    var flipped := (key - col) + ((cols - 1) - col);
    if key < KeyCount(kind) then
      // on the grid the sum stays below the key count, so the u8 arithmetic does not wrap
      MirrorInRow(key, cols, RowCount(kind));
      flipped
    else flipped % 0x100
  }

  /** The arithmetic of the mirror: in a rows-by-cols grid, key - col + (cols - 1 - col) is
      the key of the same row in the mirrored column. */
  lemma MirrorInRow(key: int, cols: int, rows: int)
    requires cols > 0 && rows > 0 && 0 <= key < rows * cols
    ensures var col := key % cols;
      var r := (key - col) + ((cols - 1) - col);
      && 0 <= r < rows * cols
      && r / cols == key / cols
      && r % cols == cols - 1 - col
  {
    var q := key / cols;
    var col := key % cols;
    var r := (key - col) + ((cols - 1) - col);
    assert r == q * cols + (cols - 1 - col);
    DivUnique(r, cols, q, cols - 1 - col);
    MulLessCancel(q, rows, cols);
    MulAtMost(q + 1, rows, cols);
  }

  /** Mirroring twice gives the key back. */
  lemma FlipKeyIndexInvolution(kind: Kind, key: byte)
    requires key < KeyCount(kind)
    ensures FlipKeyIndex(kind, FlipKeyIndex(kind, key)) == key
  {
    var c := ColumnCount(kind) as int;
    var r := FlipKeyIndex(kind, key);
    var r2 := FlipKeyIndex(kind, r);
    assert key == (key / c) * c + key % c;
    assert r2 == (r2 / c) * c + r2 % c;
  }

  /** With an odd number of columns the middle column stays put. */
  lemma FlipKeyIndexMiddleFixed(kind: Kind, key: byte)
    requires key < KeyCount(kind)
    requires ColumnCount(kind) % 2 == 1 && key % ColumnCount(kind) == ColumnCount(kind) / 2
    ensures FlipKeyIndex(kind, key) == key
  {
    var c := ColumnCount(kind) as int;
    var r := FlipKeyIndex(kind, key);
    assert key == (key / c) * c + key % c;
    assert r == (r / c) * c + r % c;
  }

  /** On the Original's 3x5 grid: 0 and 4 swap, 5 and 9 swap, 2 stays. */
  lemma FlipKeyIndexOriginal()
    ensures FlipKeyIndex(Original, 0) == 4 && FlipKeyIndex(Original, 4) == 0
    ensures FlipKeyIndex(Original, 5) == 9 && FlipKeyIndex(Original, 9) == 5
    ensures FlipKeyIndex(Original, 2) == 2 && FlipKeyIndex(Original, 14) == 10
  {
  }

  /** `replace('\0', "")` on a string. */
  function StripNul(s: string): (r: string)
    ensures '\0' !in r && |r| <= |s|
    ensures '\0' !in s ==> r == s
  {
    if s == [] then [] else if s[0] == '\0' then StripNul(s[1..]) else [s[0]] + StripNul(s[1..])
  }

  /** Removing NUL distributes over concatenation. */
  lemma {:induction false} StripNulAppend(a: string, b: string)
    ensures StripNul(a + b) == StripNul(a) + StripNul(b)
  {
    if a == [] {
      assert a + b == b;
    } else {
      assert (a + b)[0] == a[0];
      assert (a + b)[1..] == a[1..] + b;
      StripNulAppend(a[1..], b);
    }
  }

  /** A single character is dropped exactly when it is NUL; with StripNulAppend this fixes the
      result: every other character is kept, in order. */
  lemma StripNulChar(c: char)
    ensures StripNul([c]) == if c == '\0' then [] else [c]
  {
    assert [c][1..] == [];
  }

  /** A character survives exactly when it occurs in the input and is not NUL. */
  lemma {:induction false} StripNulMembers(s: string, c: char)
    ensures c in StripNul(s) <==> c in s && c != '\0'
  {
    if s != [] {
      StripNulMembers(s[1..], c);
      assert s == [s[0]] + s[1..];
    }
  }

  /** The same removal on bytes, the reference the string result is compared with. */
  function StripZeroBytes(bs: seq<byte>): (r: seq<byte>)
    ensures 0 !in r
  {
    if bs == [] then [] else if bs[0] == 0 then StripZeroBytes(bs[1..]) else [bs[0]] + StripZeroBytes(bs[1..])
  }

  lemma {:induction false} StripZeroBytesAppend(a: seq<byte>, b: seq<byte>)
    ensures StripZeroBytes(a + b) == StripZeroBytes(a) + StripZeroBytes(b)
  {
    if a == [] {
      assert a + b == b;
    } else {
      assert (a + b)[0] == a[0];
      assert (a + b)[1..] == a[1..] + b;
      StripZeroBytesAppend(a[1..], b);
    }
  }

  /** Only NUL has a zero byte in its encoding, and it is that one byte. */
  lemma StripZeroBytesEncodeChar(c: char)
    ensures StripZeroBytes(Utf8.EncodeChar(c)) == if c == '\0' then [] else Utf8.EncodeChar(c)
  {
    var e := Utf8.EncodeChar(c);
    if c != '\0' {
      assert forall i :: 0 <= i < |e| ==> e[i] != 0;
      if |e| == 1 {
      } else if |e| == 2 {
        assert e == [e[0]] + [e[1]];
        StripZeroBytesAppend([e[0]], [e[1]]);
      } else if |e| == 3 {
        assert e == [e[0]] + ([e[1]] + [e[2]]);
        StripZeroBytesAppend([e[0]], [e[1]] + [e[2]]);
        StripZeroBytesAppend([e[1]], [e[2]]);
      } else {
        assert e == [e[0]] + ([e[1]] + ([e[2]] + [e[3]]));
        StripZeroBytesAppend([e[0]], [e[1]] + ([e[2]] + [e[3]]));
        StripZeroBytesAppend([e[1]], [e[2]] + [e[3]]);
        StripZeroBytesAppend([e[2]], [e[3]]);
      }
    }
  }

  /** Removing NUL characters and then encoding is removing zero bytes from the encoding. */
  lemma {:induction false} EncodeStripNul(s: string)
    ensures Utf8.Encode(StripNul(s)) == StripZeroBytes(Utf8.Encode(s))
  {
    if s != [] {
      EncodeStripNul(s[1..]);
      StripZeroBytesAppend(Utf8.EncodeChar(s[0]), Utf8.Encode(s[1..]));
      StripZeroBytesEncodeChar(s[0]);
      if s[0] != '\0' {
        assert Utf8.Encode([s[0]] + StripNul(s[1..])) == Utf8.EncodeChar(s[0]) + Utf8.Encode(StripNul(s[1..]));
      }
    }
  }

  /** The error of `from_utf8`. */
  datatype Utf8Error = Utf8Error

  /** `extract_str`: decodes UTF-8 and drops every NUL. It fails exactly on bytes that are not
      UTF-8, and a result is the input with its zero bytes removed, read as a string. */
  function ExtractStr(bytes: seq<byte>): (r: Result<string, Utf8Error>)
    ensures r.Success? <==> Utf8.IsUtf8(bytes)
    ensures r.Success? ==> '\0' !in r.value && Utf8.Encode(r.value) == StripZeroBytes(bytes)
  {
    Utf8.ValidIffEncoding(bytes);
    match Utf8.Decode(bytes)
    case None => Failure(Utf8Error)
    case Some(s) =>
      Utf8.EncodeDecode(bytes);
      EncodeStripNul(s);
      Success(StripNul(s))
  }

  /** Extracting again from the encoding of an extracted string changes nothing. */
  lemma ExtractStrIdempotent(bytes: seq<byte>)
    requires ExtractStr(bytes).Success?
    ensures ExtractStr(Utf8.Encode(ExtractStr(bytes).value)) == ExtractStr(bytes)
  {
    var s := ExtractStr(bytes).value;
    Utf8.DecodeEncode(s);
  }
}
