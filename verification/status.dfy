/** The 32-byte status record the printer sends, read through fixed-offset
    views, and the classification of its coded bytes. */
module StatusRecord {
  import opened Bits
  import opened Wrappers

  const StatusSize: int := 32

  /** A status record is exactly 32 bytes; a shorter read never becomes one. */
  type Status = s: seq<bv8> | |s| == StatusSize witness seq(32, _ => 0 as bv8)

  function MediaWidthMM(s: Status): (w: int)
    ensures 0 <= w < 256
  {
    s[10] as int
  }

  function MediaLengthMM(s: Status): (l: int)
    ensures 0 <= l < 256
  {
    s[17] as int
  }

  /** Status.Type: the raw status-type byte. */
  function Type(s: Status): bv8 { s[18] }

  /** Status.Phase: the raw phase byte. */
  function Phase(s: Status): bv8 { s[19] }

  /** Phase number, big-endian over bytes 20 and 21. */
  function PhaseNumber(s: Status): (n: int)
    ensures 0 <= n <= 0xffff
  {
    s[20] as int * 256 + s[21] as int
  }

  /** Every logical field of the record. */
  datatype Fields = Fields(
    model: bv8, error1: bv8, error2: bv8, mediaWidthMM: int, mediaType: bv8,
    mode: bv8, mediaLengthMM: int, statusType: bv8, phase: bv8,
    phaseNumber: int, notification: bv8)

  predicate ValidFields(f: Fields)
  {
    0 <= f.mediaWidthMM < 256 && 0 <= f.mediaLengthMM < 256 && 0 <= f.phaseNumber <= 0xffff
  }

  /** The decoder: all fields through their views; total on any record. */
  function Decode(s: Status): (f: Fields)
    ensures ValidFields(f)
  {
    Fields(s[4], s[8], s[9], MediaWidthMM(s), s[11], s[15], MediaLengthMM(s),
           Type(s), Phase(s), PhaseNumber(s), s[22])
  }

  /** Writes the fields at their offsets over `base`, leaving its other bytes. */
  function Encode(base: Status, f: Fields): (s: Status)
    requires ValidFields(f)
    ensures forall i :: 0 <= i < StatusSize && i !in {4, 8, 9, 10, 11, 15, 17, 18, 19, 20, 21, 22} ==> s[i] == base[i]
  {
    seq(StatusSize, i requires 0 <= i < StatusSize =>
      if i == 4 then f.model
      else if i == 8 then f.error1
      else if i == 9 then f.error2
      else if i == 10 then f.mediaWidthMM as bv8
      else if i == 11 then f.mediaType
      else if i == 15 then f.mode
      else if i == 17 then f.mediaLengthMM as bv8
      else if i == 18 then f.statusType
      else if i == 19 then f.phase
      else if i == 20 then (f.phaseNumber / 256) as bv8
      else if i == 21 then (f.phaseNumber % 256) as bv8
      else if i == 22 then f.notification
      else base[i])
  }

  /** Decoding a record built from known fields gives those fields back. */
  lemma DecodeEncode(base: Status, f: Fields)
    requires ValidFields(f)
    ensures Decode(Encode(base, f)) == f
  {
    var s := Encode(base, f);
    assert s[4] == f.model && s[8] == f.error1 && s[9] == f.error2 && s[11] == f.mediaType;
    assert s[15] == f.mode && s[18] == f.statusType && s[19] == f.phase && s[22] == f.notification;
    EncodedNumbers(base, f);
  }

  /** The numeric fields come back through their views. */
  lemma EncodedNumbers(base: Status, f: Fields)
    requires ValidFields(f)
    ensures MediaWidthMM(Encode(base, f)) == f.mediaWidthMM
    ensures MediaLengthMM(Encode(base, f)) == f.mediaLengthMM
    ensures PhaseNumber(Encode(base, f)) == f.phaseNumber
  {
    var s := Encode(base, f);
    ByteOfInt(f.mediaWidthMM);
    ByteOfInt(f.mediaLengthMM);
    ByteOfInt(f.phaseNumber / 256);
    ByteOfInt(f.phaseNumber % 256);
    assert s[20] as int == f.phaseNumber / 256 && s[21] as int == f.phaseNumber % 256;
  }

  lemma BigEndianSplit(hi: int, lo: int)
    requires 0 <= hi < 256 && 0 <= lo < 256
    ensures (hi * 256 + lo) / 256 == hi && (hi * 256 + lo) % 256 == lo
  {
  }

  /** Re-encoding a record's own fields over it changes nothing: the views
      cover their bytes completely. */
  lemma EncodeDecode(s: Status)
    ensures Encode(s, Decode(s)) == s
  {
    var t := Encode(s, Decode(s));
    DecodeEncode(s, Decode(s));
    DecodeDetermines(t, s);
  }

  /** Two records with the same fields that agree on every other byte are equal. */
  lemma DecodeDetermines(s: Status, t: Status)
    requires Decode(s) == Decode(t)
    requires forall i :: 0 <= i < StatusSize && i !in {4, 8, 9, 10, 11, 15, 17, 18, 19, 20, 21, 22} ==> s[i] == t[i]
    ensures s == t
  {
    IntOfByte(s[10]);
    IntOfByte(t[10]);
    IntOfByte(s[17]);
    IntOfByte(t[17]);
    IntOfByte(s[20]);
    IntOfByte(t[20]);
    IntOfByte(s[21]);
    IntOfByte(t[21]);
    PhaseNumberBytes(s);
    PhaseNumberBytes(t);
    forall i | 0 <= i < StatusSize
      ensures s[i] == t[i]
    {
    }
  }

  lemma PhaseNumberBytes(s: Status)
    ensures s[20] as int == PhaseNumber(s) / 256 && s[21] as int == PhaseNumber(s) % 256
  {
    BigEndianSplit(s[20] as int, s[21] as int);
  }

  /** Each accessor reads its own byte and no other. */
  lemma AccessorsAreLocal(s: Status, t: Status)
    ensures s[10] == t[10] ==> MediaWidthMM(s) == MediaWidthMM(t)
    ensures s[17] == t[17] ==> MediaLengthMM(s) == MediaLengthMM(t)
    ensures s[18] == t[18] ==> Type(s) == Type(t)
    ensures s[19] == t[19] ==> Phase(s) == Phase(t)
    ensures s[20] == t[20] && s[21] == t[21] ==> PhaseNumber(s) == PhaseNumber(t)
  {
  }

  // ---------------------------------------------------------------------------
  // Error bitfields

  const Error1Names: seq<string> := [
    "no media", "end of media", "cutter jam", "?", "printer in use",
    "printer turned off", "high-voltage adapter", "fan motor error"]

  const Error2Names: seq<string> := [
    "replace media", "expansion buffer full", "communication error",
    "communication buffer full", "cover open", "cancel key",
    "media cannot be fed", "system error"]

  /** Names of the set bits from bit `i` upwards, in ascending bit order. */
  function BitfieldFrom(b: bv8, names: seq<string>, i: nat): (r: seq<string>)
    requires |names| == 8 && i <= 8
    ensures |r| == |SetBits(b, i)|
    ensures forall k :: i <= k < 8 && Bit(b, k) ==> names[k] in r
    decreases 8 - i
  {
    if i == 8 then
      assert SetBits(b, 8) == {};
      []
    else
      var rest := BitfieldFrom(b, names, i + 1);
      SetBitsStep(b, i);
      if Bit(b, i) then [names[i]] + rest else rest
  }

  /** decodeBitfieldErrors: one name per set bit, ascending; nothing is
      suppressed, so the count is the population count of the byte. */
  function DecodeBitfieldErrors(b: bv8, names: seq<string>): (r: seq<string>)
    requires |names| == 8
    ensures |r| == PopCount(b)
    ensures forall k :: 0 <= k < 8 ==> (Bit(b, k) ==> names[k] in r)
  {
    BitfieldFrom(b, names, 0)
  }

  /** Conversely, every listed name belongs to a set bit. */
  lemma {:induction false} BitfieldOnlySetBits(b: bv8, names: seq<string>, i: nat, x: string)
    requires |names| == 8 && i <= 8
    requires x in BitfieldFrom(b, names, i)
    ensures exists k :: i <= k < 8 && Bit(b, k) && x == names[k]
    decreases 8 - i
  {
    if i < 8 {
      if Bit(b, i) && x == names[i] {
      } else {
        BitfieldOnlySetBits(b, names, i + 1, x);
      }
    }
  }

  /** The names at the given bit positions, in the order given. */
  function NamesAt(ks: seq<nat>, names: seq<string>): (r: seq<string>)
    requires forall k :: k in ks ==> k < |names|
    ensures |r| == |ks|
  {
    if ks == [] then []
    else
      assert ks[0] in ks;
      assert forall k :: k in ks[1..] ==> k in ks;
      [names[ks[0]]] + NamesAt(ks[1..], names)
  }

  /** The names come out in ascending bit order: those of the set bits,
      lowest bit first. */
  lemma {:induction false} BitfieldInOrder(b: bv8, names: seq<string>, i: nat)
    requires |names| == 8 && i <= 8
    ensures BitfieldFrom(b, names, i) == NamesAt(SetBitList(b, i), names)
    decreases 8 - i
  {
    if i < 8 {
      BitfieldInOrder(b, names, i + 1);
      var ks := SetBitList(b, i + 1);
      if Bit(b, i) {
        assert SetBitList(b, i) == [i] + ks;
        assert ([i] + ks)[1..] == ks;
        assert NamesAt([i] + ks, names) == [names[i]] + NamesAt(ks, names);
      } else {
        assert SetBitList(b, i) == ks;
      }
    }
  }

  /** Status.Errors: the byte-8 names, then the byte-9 names. */
  function Errors(s: Status): (r: seq<string>)
    ensures |r| == PopCount(s[8]) + PopCount(s[9])
    ensures r == [] <==> s[8] == 0 && s[9] == 0
    ensures forall k :: 0 <= k < 8 && Bit(s[8], k) ==> Error1Names[k] in r
    ensures forall k :: 0 <= k < 8 && Bit(s[9], k) ==> Error2Names[k] in r
  {
    PopCountZero(s[8]);
    PopCountZero(s[9]);
    DecodeBitfieldErrors(s[8], Error1Names) + DecodeBitfieldErrors(s[9], Error2Names)
  }

  /** The unnamed bit 3 of byte 8 is reported as "?", and only it. */
  lemma QuestionMarkIsBit3(s: Status)
    ensures "?" in Errors(s) <==> Bit(s[8], 3)
  {
    var e1 := DecodeBitfieldErrors(s[8], Error1Names);
    var e2 := DecodeBitfieldErrors(s[9], Error2Names);
    assert Errors(s) == e1 + e2;
    if "?" in e1 {
      QuestionFromBit3(s[8]);
    }
    NoQuestionInByte9(s[9]);
    assert Error1Names[3] == "?";
  }

  /** Errors lists the names of the set bits of byte 8 in ascending bit
      order, then those of byte 9. */
  lemma ErrorsInOrder(s: Status)
    ensures Errors(s) == NamesAt(SetBitList(s[8], 0), Error1Names) + NamesAt(SetBitList(s[9], 0), Error2Names)
  {
    BitfieldInOrder(s[8], Error1Names, 0);
    BitfieldInOrder(s[9], Error2Names, 0);
  }

  lemma QuestionFromBit3(b: bv8)
    requires "?" in DecodeBitfieldErrors(b, Error1Names)
    ensures Bit(b, 3)
  {
    BitfieldOnlySetBits(b, Error1Names, 0, "?");
    var k :| 0 <= k < 8 && Bit(b, k) && "?" == Error1Names[k];
    OnlyQuestionAt3(k);
  }

  lemma OnlyQuestionAt3(k: nat)
    requires k < 8 && Error1Names[k] == "?"
    ensures k == 3
  {
    assert forall j :: 0 <= j < 8 && j != 3 ==> |Error1Names[j]| > 1;
  }

  lemma NoQuestionName2(k: nat)
    requires k < 8
    ensures Error2Names[k] != "?"
  {
    assert |Error2Names[k]| > 1;
  }

  lemma NoQuestionInByte9(b: bv8)
    ensures "?" !in DecodeBitfieldErrors(b, Error2Names)
  {
    if "?" in DecodeBitfieldErrors(b, Error2Names) {
      BitfieldOnlySetBits(b, Error2Names, 0, "?");
      var k :| 0 <= k < 8 && Bit(b, k) && "?" == Error2Names[k];
      NoQuestionName2(k);
      assert false;
    }
  }

  // ---------------------------------------------------------------------------
  // Classification of coded bytes, as the diagnostic dump does it

  datatype StatusType =
    | ReplyToRequest | PrintingCompleted | ErrorOccurred | TurnedOff
    | Notification | PhaseChange | OtherType(code: bv8)

  function ClassifyType(t: bv8): StatusType
  {
    match t
    case 0x00 => ReplyToRequest
    case 0x01 => PrintingCompleted
    case 0x02 => ErrorOccurred
    case 0x04 => TurnedOff
    case 0x05 => Notification
    case 0x06 => PhaseChange
    case _ => OtherType(t)
  }

  /** The status-type code of each class. */
  function TypeCode(k: StatusType): bv8
  {
    match k
    case ReplyToRequest => 0x00
    case PrintingCompleted => 0x01
    case ErrorOccurred => 0x02
    case TurnedOff => 0x04
    case Notification => 0x05
    case PhaseChange => 0x06
    case OtherType(c) => c
  }

  /** Classification loses nothing: the raw code comes back, and exactly the
      codes 0, 1, 2, 4, 5 and 6 are named (3 and everything from 7 up are not). */
  lemma ClassifyTypeRoundTrip(t: bv8)
    ensures TypeCode(ClassifyType(t)) == t
    ensures !ClassifyType(t).OtherType? <==> t <= 2 || 4 <= t <= 6
  {
  }

  /** Named classes and their codes correspond one to one. */
  lemma TypeCodeRoundTrip(k: StatusType)
    requires k.OtherType? ==> !(k.code <= 2 || 4 <= k.code <= 6)
    ensures ClassifyType(TypeCode(k)) == k
  {
  }

  datatype MediaKind = NoMedia | ContinuousTape | DieCutLabels | OtherMedia(code: bv8)

  /** Media-type byte: 0x0A/0x4A ('J') continuous, 0x0B/0x4B ('K') die-cut. */
  function ClassifyMedia(t: bv8): MediaKind
  {
    match t
    case 0x00 => NoMedia
    case 0x0a => ContinuousTape
    case 0x4a => ContinuousTape
    case 0x0b => DieCutLabels
    case 0x4b => DieCutLabels
    case _ => OtherMedia(t)
  }

  /** The codes of each media class, and the raw byte kept for unknown ones. */
  lemma ClassifyMediaCodes(t: bv8)
    ensures ClassifyMedia(t) == ContinuousTape <==> t == 0x0a || t == 0x4a
    ensures ClassifyMedia(t) == DieCutLabels <==> t == 0x0b || t == 0x4b
    ensures ClassifyMedia(t) == NoMedia <==> t == 0x00
    ensures ClassifyMedia(t).OtherMedia? ==> ClassifyMedia(t).code == t
  {
  }

  datatype PhaseKind = Receiving | Printing | OtherPhase(code: bv8)

  /** Phase type at offset 19: 0 receiving, 1 printing, the raw byte otherwise. */
  function ClassifyPhase(t: bv8): (k: PhaseKind)
    ensures k == Receiving <==> t == 0x00
    ensures k == Printing <==> t == 0x01
    ensures k.OtherPhase? <==> t >= 2
    ensures k.OtherPhase? ==> k.code == t
  {
    match t
    case 0x00 => Receiving
    case 0x01 => Printing
    case _ => OtherPhase(t)
  }

  /** The phase-type code of each class. */
  function PhaseCode(k: PhaseKind): bv8
  {
    match k
    case Receiving => 0x00
    case Printing => 0x01
    case OtherPhase(c) => c
  }

  /** Phase classification loses nothing, and named classes and their codes
      correspond one to one. */
  lemma PhaseRoundTrip(t: bv8, k: PhaseKind)
    ensures PhaseCode(ClassifyPhase(t)) == t
    ensures k.OtherPhase? ==> k.code >= 2 ==> ClassifyPhase(PhaseCode(k)) == k
    ensures !k.OtherPhase? ==> ClassifyPhase(PhaseCode(k)) == k
  {
  }

  datatype NotificationKind = NotAvailable | CoolingStarted | CoolingFinished | OtherNotification(code: bv8)

  /** Notification number at offset 22: 0 not available, 3 cooling started,
      4 cooling finished, the raw byte otherwise. */
  function ClassifyNotification(n: bv8): (k: NotificationKind)
    ensures k == NotAvailable <==> n == 0x00
    ensures k == CoolingStarted <==> n == 0x03
    ensures k == CoolingFinished <==> n == 0x04
    ensures k.OtherNotification? <==> !(n == 0 || n == 3 || n == 4)
    ensures k.OtherNotification? ==> k.code == n
  {
    match n
    case 0x00 => NotAvailable
    case 0x03 => CoolingStarted
    case 0x04 => CoolingFinished
    case _ => OtherNotification(n)
  }

  /** The notification number of each class. */
  function NotificationCode(k: NotificationKind): bv8
  {
    match k
    case NotAvailable => 0x00
    case CoolingStarted => 0x03
    case CoolingFinished => 0x04
    case OtherNotification(c) => c
  }

  /** Notification classification loses nothing, and named classes and
      their numbers correspond one to one. */
  lemma NotificationRoundTrip(n: bv8, k: NotificationKind)
    ensures NotificationCode(ClassifyNotification(n)) == n
    ensures k.OtherNotification? && !(k.code == 0 || k.code == 3 || k.code == 4) ==>
      ClassifyNotification(NotificationCode(k)) == k
    ensures !k.OtherNotification? ==> ClassifyNotification(NotificationCode(k)) == k
  {
  }

  /** Model code at offset 4: a model name, or "" for an unknown code. */
  function ModelName(m: bv8): (name: string)
    ensures m == 0x38 <==> name == "QL-800"
    ensures m == 0x39 <==> name == "QL-810W"
    ensures m == 0x41 <==> name == "QL-820NWB"
    ensures m == 0x43 <==> name == "QL-1100"
    ensures m == 0x44 <==> name == "QL-1110NWB"
    ensures m == 0x45 <==> name == "QL-1115NWB"
    ensures name == "" <==> !(m in {0x38, 0x39, 0x41, 0x43, 0x44, 0x45})
  {
    match m
    case 0x38 => "QL-800"
    case 0x39 => "QL-810W"
    case 0x41 => "QL-820NWB"
    case 0x43 => "QL-1100"
    case 0x44 => "QL-1110NWB"
    case 0x45 => "QL-1115NWB"
    case _ => ""
  }

  /** The model code behind a name, if any. */
  function ModelCode(name: string): Option<bv8>
  {
    if name == "QL-800" then Some(0x38)
    else if name == "QL-810W" then Some(0x39)
    else if name == "QL-820NWB" then Some(0x41)
    else if name == "QL-1100" then Some(0x43)
    else if name == "QL-1110NWB" then Some(0x44)
    else if name == "QL-1115NWB" then Some(0x45)
    else None
  }

  /** Every known model has its own name: the code comes back from it, and
      an unknown code gives a name that maps to no code. */
  lemma ModelNameRoundTrip(m: bv8)
    ensures ModelCode(ModelName(m)) == if ModelName(m) == "" then None else Some(m)
  {
  }
}
