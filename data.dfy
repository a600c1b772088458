/** The data-segment decoder: three metadata lookups choose the layout, then the
    raw bytes are read, four at a time, into 32-bit events. An event is modelled
    as the 32-bit pattern that `byteorder` reinterprets as an `f32`. */
module DataDecoder {
  import opened Wrappers

  type Byte = b: int | 0 <= b < 0x100
  type Word = w: int | 0 <= w < 0x1_0000_0000

  /** The decoded text segment, as far as the decoder consults it. */
  datatype Text = Text(pairs: map<string, string>)

  /** The data segment with its events. */
  datatype Data = Data(events: seq<Word>)

  datatype DataError = UnsupportedMode | UnsupportedByteOrder | UnsupportedDataType | BadRead

  datatype ByteOrder = LittleEndian | BigEndian

  const Undefined: string := "undefined"

  /** `pairs.get(key).unwrap_or("undefined")`. */
  function LookupOr(text: Text, key: string): (v: string)
    ensures key in text.pairs ==> v == text.pairs[key]
    ensures key !in text.pairs ==> v == Undefined
  {
    if key in text.pairs then text.pairs[key] else Undefined
  }

  predicate ModeIsList(text: Text) {
    "$MODE" in text.pairs && text.pairs["$MODE"] == "L"
  }

  predicate DataTypeIsFloat(text: Text) {
    "$DATATYPE" in text.pairs && text.pairs["$DATATYPE"] == "F"
  }

  /** The byte order named by `$BYTEORD`, if it is one of the two supported. */
  predicate ByteOrderIs(text: Text, order: ByteOrder) {
    && "$BYTEORD" in text.pairs
    && text.pairs["$BYTEORD"] == (if order == LittleEndian then "1,2,3,4" else "4,3,2,1")
  }

  /** The checks of `try_from`, in their order: `$MODE`, then `$DATATYPE`, then
      `$BYTEORD`. A key that is absent fails its check. */
  function Dispatch(text: Text): (r: Result<ByteOrder, DataError>)
    ensures r == Failure(UnsupportedMode) <==> !ModeIsList(text)
    ensures r == Failure(UnsupportedDataType) <==> ModeIsList(text) && !DataTypeIsFloat(text)
    ensures r == Failure(UnsupportedByteOrder) <==>
      && ModeIsList(text) && DataTypeIsFloat(text)
      && !ByteOrderIs(text, LittleEndian) && !ByteOrderIs(text, BigEndian)
    ensures r == Success(LittleEndian) <==>
      ModeIsList(text) && DataTypeIsFloat(text) && ByteOrderIs(text, LittleEndian)
    ensures r == Success(BigEndian) <==>
      ModeIsList(text) && DataTypeIsFloat(text) && ByteOrderIs(text, BigEndian)
    ensures r != Failure(BadRead)
  {
    if LookupOr(text, "$MODE") != "L" then Failure(UnsupportedMode)
    else if LookupOr(text, "$DATATYPE") != "F" then Failure(UnsupportedDataType)
    else if "$BYTEORD" in text.pairs && text.pairs["$BYTEORD"] == "1,2,3,4" then Success(LittleEndian)
    else if "$BYTEORD" in text.pairs && text.pairs["$BYTEORD"] == "4,3,2,1" then Success(BigEndian)
    else Failure(UnsupportedByteOrder)
  }

  /** The word whose least significant byte is `b[0]` and most significant `b[3]`. */
  function LittleEndianWord(b: seq<Byte>): (w: Word)
    requires |b| == 4
    ensures w % 0x100 == b[0] && w / 0x100_0000 == b[3]
  {
    b[0] as int + 0x100 * (b[1] as int + 0x100 * (b[2] as int + 0x100 * b[3] as int))
  }

  function Reverse4(b: seq<Byte>): (r: seq<Byte>)
    requires |b| == 4
    ensures |r| == 4 && forall i :: 0 <= i < 4 ==> r[i] == b[3 - i]
  {
    [b[3], b[2], b[1], b[0]]
  }

  /** Four bytes read in the given order, as `read_f32_into` does per element. */
  function WordFrom(order: ByteOrder, b: seq<Byte>): (w: Word)
    requires |b| == 4
    ensures order == LittleEndian ==> w % 0x100 == b[0] && w / 0x100_0000 == b[3]
    ensures order == BigEndian ==> w % 0x100 == b[3] && w / 0x100_0000 == b[0]
  {
    match order
    case LittleEndian => LittleEndianWord(b)
    case BigEndian => LittleEndianWord(Reverse4(b))
  }

  /** The four bytes that represent `w` in the given order: the inverse of
      `WordFrom`. */
  function WordBytes(order: ByteOrder, w: Word): (b: seq<Byte>)
    ensures |b| == 4
  {
    var r1 := w / 0x100;
    var r2 := r1 / 0x100;
    var le := [w % 0x100, r1 % 0x100, r2 % 0x100, r2 / 0x100];
    match order
    case LittleEndian => le
    case BigEndian => Reverse4(le)
  }

  /** The events `read_f32_into` produces when it reads all of `b` into a buffer of
      `|b| / 4` slots: one word per four bytes, in input order. */
  function DecodeWords(b: seq<Byte>, order: ByteOrder): (events: seq<Word>)
    ensures |events| == |b| / 4
    ensures forall i :: 0 <= i < |events| ==> events[i] == WordFrom(order, b[4 * i..4 * i + 4])
    decreases |b|
  {
    if |b| < 4 then []
    else
      var tail := DecodeWords(b[4..], order);
      assert forall i :: 0 <= i < |tail| ==> b[4..][4 * i..4 * i + 4] == b[4 * (i + 1)..4 * (i + 1) + 4];
      [WordFrom(order, b[..4])] + tail
  }

  /** The bytes whose decoding is `events`: each event's four bytes in turn. */
  function EncodeWords(events: seq<Word>, order: ByteOrder): (b: seq<Byte>)
    ensures |b| == 4 * |events|
  {
    if events == [] then [] else WordBytes(order, events[0]) + EncodeWords(events[1..], order)
  }

  /** `Data::try_from((text, data))`. */
  function Decoded(text: Text, data: seq<Byte>): (r: Result<Data, DataError>)
    ensures r.Success? <==>
      ModeIsList(text) && DataTypeIsFloat(text)
      && (ByteOrderIs(text, LittleEndian) || ByteOrderIs(text, BigEndian))
    ensures r.Success? ==> |r.value.events| == |data| / 4
    ensures r != Failure(BadRead)
  {
    var order :- Dispatch(text);
    Success(Data(DecodeWords(data, order)))
  }

  /** A reader over an in-memory byte slice whose position advances as it reads,
      like `std::io::Cursor`. */
  class Cursor {
    const data: seq<Byte>
    var position: nat

    ghost predicate Valid()
      reads this
    {
      position <= |data|
    }

    constructor (data: seq<Byte>)
      ensures Valid() && this.data == data && position == 0
    {
      this.data := data;
      position := 0;
    }

    /** `read_exact`: the next `n` bytes, or nothing, and the position moved to the
        end, when fewer than `n` remain. */
    method ReadExact(n: nat) returns (r: Option<seq<Byte>>)
      requires Valid()
      modifies this
      ensures Valid()
      ensures old(position) + n <= |data| ==>
        r == Some(data[old(position)..old(position) + n]) && position == old(position) + n
      ensures old(position) + n > |data| ==> r == None && position == |data|
    {
      if position + n <= |data| {
        r := Some(data[position..position + n]);
        position := position + n;
      } else {
        r := None;
        position := |data|;
      }
    }

    /** `read_f32_into::<order>(dst)`: fill every slot of `dst` with the next four
        bytes taken as a word, or report that too few bytes remain. */
    method ReadWordsInto(order: ByteOrder, dst: array<Word>) returns (ok: bool)
      requires Valid()
      modifies this, dst
      ensures Valid()
      ensures ok <==> old(position) + 4 * dst.Length <= |data|
      ensures ok ==> dst[..] == DecodeWords(data[old(position)..old(position) + 4 * dst.Length], order)
      ensures ok ==> position == old(position) + 4 * dst.Length
      ensures !ok ==> position == |data| && dst[..] == old(dst[..])
    {
      var bytes := ReadExact(4 * dst.Length);
      if bytes.None? {
        return false;
      }
      var b := bytes.value;
      ghost var decoded := DecodeWords(b, order);
      var i := 0;
      while i < dst.Length
        invariant 0 <= i <= dst.Length
        invariant Valid() && position == old(position) + 4 * dst.Length
        invariant forall k :: 0 <= k < i ==> dst[k] == decoded[k]
      {
        dst[i] := WordFrom(order, b[4 * i..4 * i + 4]);
        i := i + 1;
      }
      assert dst[..] == decoded;
      return true;
    }
  }

  /** `Data::try_from((text, data))` as the source writes it: the checks, then a
      zeroed buffer of `|data| / 4` events filled by a reader over `data`. */
  method Decode(text: Text, data: seq<Byte>) returns (r: Result<Data, DataError>)
    ensures r == Decoded(text, data)
  {
    if LookupOr(text, "$MODE") != "L" {
      return Failure(UnsupportedMode);
    }
    if LookupOr(text, "$DATATYPE") != "F" {
      return Failure(UnsupportedDataType);
    }
    var events := new Word[|data| / 4](_ => 0);
    var reader := new Cursor(data);
    var order;
    if "$BYTEORD" in text.pairs && text.pairs["$BYTEORD"] == "1,2,3,4" {
      order := LittleEndian;
    } else if "$BYTEORD" in text.pairs && text.pairs["$BYTEORD"] == "4,3,2,1" {
      order := BigEndian;
    } else {
      return Failure(UnsupportedByteOrder);
    }
    var ok := reader.ReadWordsInto(order, events);
    assert forall k :: 0 <= k < events.Length ==> data[0..4 * events.Length][4 * k..4 * k + 4] == data[4 * k..4 * k + 4];
    assert ok ==> events[..] == DecodeWords(data, order);
    r := if ok then Success(Data(events[..])) else Failure(BadRead);
  }
}

module DataLemmas {
  import opened Wrappers
  import opened DataDecoder

  /** Bytes to word and back gives the same bytes. */
  lemma WordBytesOfWord(order: ByteOrder, b: seq<Byte>)
    requires |b| == 4
    ensures WordBytes(order, WordFrom(order, b)) == b
  {
    var le := if order == LittleEndian then b else Reverse4(b);
    var w := LittleEndianWord(le);
    var q1 := le[1] as int + 0x100 * (le[2] as int + 0x100 * le[3] as int);
    var q2 := le[2] as int + 0x100 * le[3] as int;
    ByteDigit(le[0], q1);
    ByteDigit(le[1], q2);
    ByteDigit(le[2], le[3]);
    assert w / 0x100 == q1 && (w / 0x100) / 0x100 == q2;
  }

  /** Word to bytes and back gives the same word. */
  lemma WordOfWordBytes(order: ByteOrder, w: Word)
    ensures WordFrom(order, WordBytes(order, w)) == w
  {
    var r1 := w / 0x100;
    var r2 := r1 / 0x100;
    assert w == w % 0x100 + 0x100 * r1;
    assert r1 == r1 % 0x100 + 0x100 * r2;
    assert r2 == r2 % 0x100 + 0x100 * (r2 / 0x100);
  }

  lemma ByteDigit(low: int, high: int)
    requires 0 <= low < 0x100 && 0 <= high
    ensures (low + 0x100 * high) % 0x100 == low && (low + 0x100 * high) / 0x100 == high
  {
  }

  /** Big-endian order is little-endian order on the reversed bytes. */
  lemma BigEndianIsReversed(b: seq<Byte>)
    requires |b| == 4
    ensures WordFrom(BigEndian, b) == WordFrom(LittleEndian, Reverse4(b))
    ensures WordFrom(BigEndian, Reverse4(b)) == WordFrom(LittleEndian, b)
  {
    assert Reverse4(Reverse4(b)) == b;
  }

  /** Decoding what `EncodeWords` wrote gives back the events. */
  lemma {:induction false} DecodeEncode(events: seq<Word>, order: ByteOrder)
    ensures DecodeWords(EncodeWords(events, order), order) == events
  {
    if events != [] {
      var b := EncodeWords(events, order);
      var head := WordBytes(order, events[0]);
      assert b[..4] == head && b[4..] == EncodeWords(events[1..], order);
      WordOfWordBytes(order, events[0]);
      DecodeEncode(events[1..], order);
    }
  }

  /** On success there are exactly `|data| / 4` events, and event `i` is bytes
      `4i..4i+4` in the order `$BYTEORD` names. */
  lemma DecodedEvents(text: Text, data: seq<Byte>, i: nat)
    requires Decoded(text, data).Success?
    requires i < |data| / 4
    ensures |Decoded(text, data).value.events| == |data| / 4
    ensures ByteOrderIs(text, LittleEndian) ==>
      Decoded(text, data).value.events[i] == LittleEndianWord(data[4 * i..4 * i + 4])
    ensures ByteOrderIs(text, BigEndian) ==>
      Decoded(text, data).value.events[i] == LittleEndianWord(Reverse4(data[4 * i..4 * i + 4]))
  {
  }

  /** `try_from` succeeds exactly when the three checks pass; it fails with the
      first check that does not, so `BadRead` never occurs. */
  lemma DecodedOutcome(text: Text, data: seq<Byte>)
    ensures Decoded(text, data).Success? <==>
      ModeIsList(text) && DataTypeIsFloat(text) && (ByteOrderIs(text, LittleEndian) || ByteOrderIs(text, BigEndian))
    ensures Decoded(text, data) != Failure(BadRead)
    ensures !ModeIsList(text) ==> Decoded(text, data) == Failure(UnsupportedMode)
    ensures ModeIsList(text) && !DataTypeIsFloat(text) ==> Decoded(text, data) == Failure(UnsupportedDataType)
    ensures ModeIsList(text) && DataTypeIsFloat(text) && !ByteOrderIs(text, LittleEndian) && !ByteOrderIs(text, BigEndian) ==>
      Decoded(text, data) == Failure(UnsupportedByteOrder)
  {
  }

  /** The 1–3 bytes after the last complete word do not change the outcome. */
  lemma {:induction false} TrailingBytesIgnored(data: seq<Byte>, extra: seq<Byte>, order: ByteOrder)
    requires |data| % 4 == 0 && |extra| < 4
    ensures DecodeWords(data + extra, order) == DecodeWords(data, order)
    decreases |data|
  {
    if |data| < 4 {
      assert data == [];
      assert data + extra == extra;
    } else {
      assert (data + extra)[..4] == data[..4];
      assert (data + extra)[4..] == data[4..] + extra;
      TrailingBytesIgnored(data[4..], extra, order);
    }
  }

  /** Only whole words are decoded: the data decodes as its longest prefix of whole
      words does. */
  lemma DecodedIgnoresTrailingBytes(text: Text, data: seq<Byte>)
    ensures Decoded(text, data) == Decoded(text, data[..4 * (|data| / 4)])
  {
    var whole := data[..4 * (|data| / 4)];
    assert data == whole + data[4 * (|data| / 4)..];
    if Dispatch(text).Success? {
      TrailingBytesIgnored(whole, data[4 * (|data| / 4)..], Dispatch(text).value);
    }
  }

  /** The decoder's success path reads the encoding of any event sequence back. */
  lemma DecodedEncoding(text: Text, events: seq<Word>, order: ByteOrder)
    requires ModeIsList(text) && DataTypeIsFloat(text) && ByteOrderIs(text, order)
    ensures Decoded(text, EncodeWords(events, order)) == Success(Data(events))
  {
    DecodeEncode(events, order);
  }
}

/** The decoder on the little-endian encoding of the floats 1.0 (0x3F80_0000) and
    2.0 (0x4000_0000). */
module DataExamples {
  import opened Wrappers
  import opened DataDecoder

  const OneTwo: seq<Byte> := [0x00, 0x00, 0x80, 0x3F, 0x00, 0x00, 0x00, 0x40]

  function ListFloats(byteOrder: string): Text {
    Text(map["$MODE" := "L", "$DATATYPE" := "F", "$BYTEORD" := byteOrder])
  }

  lemma DecodesOneTwo()
    ensures Decoded(ListFloats("1,2,3,4"), OneTwo) == Success(Data([0x3F80_0000, 0x4000_0000]))
  {
    var events := DecodeWords(OneTwo, LittleEndian);
    assert OneTwo[0..4] == [0x00, 0x00, 0x80, 0x3F];
    assert OneTwo[4..8] == [0x00, 0x00, 0x00, 0x40];
    assert events[0] == 0x3F80_0000 && events[1] == 0x4000_0000;
    assert events == [0x3F80_0000, 0x4000_0000];
  }

  lemma RejectsOneTwo()
    ensures Decoded(ListFloats("1,2,3,4").(pairs := ListFloats("1,2,3,4").pairs["$MODE" := "H"]), OneTwo) == Failure(UnsupportedMode)
    ensures Decoded(ListFloats("2,1,4,3"), OneTwo) == Failure(UnsupportedByteOrder)
    ensures Decoded(ListFloats("1,2,3,4").(pairs := ListFloats("1,2,3,4").pairs["$DATATYPE" := "I"]), OneTwo) == Failure(UnsupportedDataType)
  {
    assert "2,1,4,3" != "1,2,3,4" && "2,1,4,3" != "4,3,2,1";
  }
}
