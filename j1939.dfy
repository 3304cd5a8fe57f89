/**
  SAE J1939 identifier codec.

  A J1939 message travels in a CAN 2.0B frame whose 29-bit extended
  identifier is laid out as in section 5.2 of SAE J1939-21:

     bits 26-28  priority
     bit  25     extended data page (EDP)
     bit  24     data page (DP)
     bits 16-23  PDU format (PF)
     bits  8-15  PDU specific (PS): destination address when PF < 0xF0 (PDU1),
                 group extension of the PGN when PF >= 0xF0 (PDU2)
     bits  0-7   source address

  The C socket layer keeps the identifier in a 32-bit word whose bit 31 is the
  extended-frame flag. Words are modelled as bit-vectors, so the masks of the
  server's header (named in comments) and its shifts are written exactly as
  they are there.
*/
module J1939 {

  // Node addresses and parameter groups of the Kepler server.
  const ServerSa: bv8 := 0
  const ClientSa: bv8 := 120
  const ResultsPgn: bv32 := 0xFF15
  const RequestPgn: bv32 := 0xFF14
  const DefaultPriority: bv8 := 6
  const GlobalAddress: bv8 := 255

  // Field masks of an identifier word. The codec's bodies write them as
  // literals, each marked with the name of its constant here.
  const PriorityMask: bv32 := 0x1C00_0000
  const EdpMask: bv32 := 0x0200_0000
  const DpMask: bv32 := 0x0100_0000
  const PfMask: bv32 := 0x00FF_0000
  const PsMask: bv32 := 0x0000_FF00
  const SaMask: bv32 := 0x0000_00FF
  const Pdu1PgnMask: bv32 := 0x03FF_0000
  const Pdu2PgnMask: bv32 := 0x03FF_FF00

  /**
    The masks tile bits 0-28 without overlap, and the PGN masks cover the data
    pages and PF (PDU1) or the data pages, PF and PS (PDU2).
  */
  lemma MaskLayout()
    ensures PriorityMask | EdpMask | DpMask | PfMask | PsMask | SaMask == 0x1FFF_FFFF
    ensures PriorityMask & (EdpMask | DpMask | PfMask | PsMask | SaMask) == 0
    ensures EdpMask & (DpMask | PfMask | PsMask | SaMask) == 0
    ensures DpMask & (PfMask | PsMask | SaMask) == 0
    ensures PfMask & (PsMask | SaMask) == 0 && PsMask & SaMask == 0
    ensures Pdu1PgnMask == EdpMask | DpMask | PfMask
    ensures Pdu2PgnMask == Pdu1PgnMask | PsMask
  {
  }

  /** The four fields a J1939 identifier carries. */
  datatype Header = Header(priority: bv8, pgn: bv32, da: bv8, sa: bv8)

  /** PDU format byte (bits 16-23) of an identifier: the field under PfMask. */
  function PduFormat(id: bv32): (pf: bv8)
    ensures pf as bv32 == (id & PfMask) >> 16
  {
    ((0x00FF_0000 & id) >> 16) as bv8  // PfMask
  }

  /** PDU specific byte (bits 8-15) of an identifier: the field under PsMask. */
  function PduSpecific(id: bv32): (ps: bv8)
    ensures ps as bv32 == (id & PsMask) >> 8
  {
    ((0x0000_FF00 & id) >> 8) as bv8  // PsMask
  }

  /** PDU format byte of a parameter group number (its bits 8-15). */
  function PgnFormat(pgn: bv32): bv8 {
    ((pgn >> 8) & 0xFF) as bv8
  }

  /**
    The parameter group numbers that decoding can produce: 18 bits wide, and
    either a PDU2 group (PF >= 0xF0) or a PDU1 group whose low byte is 0.
  */
  predicate CanonicalPgn(pgn: bv32) {
    pgn <= 0x3FFFF && (PgnFormat(pgn) >= 0xF0 || pgn & 0xFF == 0)
  }

  /**
    Decodes an identifier into priority, PGN, destination and source address.
    The PDU format byte alone chooses between PDU1 and PDU2.
  */
  function ParseJ1939(id: bv32): (r: Header)
    ensures r.priority <= 7
  {
    var priority := ((0x1C00_0000 & id) >> 26) as bv8;  // PriorityMask
    var pf := PduFormat(id);
    var ps := PduSpecific(id);
    var sa := (id & 0x0000_00FF) as bv8;                // SaMask
    if pf >= 0xF0 then
      // PDU2: the PS byte is a group extension of the PGN (Pdu2PgnMask)
      Header(priority, (id & 0x03FF_FF00) >> 8, 255, sa)
    else
      // PDU1: the PS byte is the destination (Pdu1PgnMask)
      Header(priority, (id & 0x03FF_0000) >> 8, ps, sa)
  }

  /** The decoded priority is the field under PriorityMask. */
  lemma ParsePriorityMask(id: bv32)
    ensures ParseJ1939(id).priority as bv32 == (id & PriorityMask) >> 26
  {
  }

  /** The decoded source address is the field under SaMask. */
  lemma ParseSaMask(id: bv32)
    ensures ParseJ1939(id).sa as bv32 == id & SaMask
  {
  }

  /** The decoded PGN is the field under Pdu2PgnMask or Pdu1PgnMask, as the PF byte decides. */
  lemma ParsePgnMasks(id: bv32)
    ensures PduFormat(id) >= 0xF0 ==> ParseJ1939(id).pgn == (id & Pdu2PgnMask) >> 8
    ensures PduFormat(id) < 0xF0 ==> ParseJ1939(id).pgn == (id & Pdu1PgnMask) >> 8
  {
  }

  /**
    Encodes an identifier the way the server does: the PDU format is chosen
    by comparing the whole PGN with 0xF000. Priorities above 7 would spill
    out of bits 26-28 (and are undefined behaviour in C from 32 on).
  */
  function GetJ1939Id(priority: bv8, pgn: bv32, sa: bv8, da: bv8): (r: bv32)
    requires priority <= 7
    ensures r & 0x8000_0000 != 0
  {
    var canId := sa as bv32;
    var canId :=
      if pgn >= 0xF000 then
        // PDU2: the PGN's low byte is the PS field
        canId + ((0x3FFFF & pgn) << 8)
      else
        canId + ((0x3FF00 & pgn) << 8) + ((da as bv32) << 8);
    var canId := canId + ((priority as bv32) << 26);
    canId | 0x8000_0000
  }

  /**
    The encoder with the PDU format chosen as decoding chooses it, from the
    PF byte of the PGN, so that the two directions agree on every group.
  */
  function GetJ1939IdCorrected(priority: bv8, pgn: bv32, sa: bv8, da: bv8): (r: bv32)
    requires priority <= 7
    ensures r & 0x8000_0000 != 0
  {
    var canId := sa as bv32;
    var canId :=
      if PgnFormat(pgn) >= 0xF0 then
        canId + ((0x3FFFF & pgn) << 8)
      else
        canId + ((0x3FF00 & pgn) << 8) + ((da as bv32) << 8);
    var canId := canId + ((priority as bv32) << 26);
    canId | 0x8000_0000
  }

  /** The identifier the PDU2 branch of both encoders builds, its fields OR-ed together. */
  function Pdu2Id(priority: bv8, pgn: bv32, sa: bv8): bv32 {
    ((priority as bv32) << 26) | ((pgn & 0x3FFFF) << 8) | sa as bv32 | 0x8000_0000
  }

  /** The identifier the PDU1 branch of both encoders builds. */
  function Pdu1Id(priority: bv8, pgn: bv32, sa: bv8, da: bv8): bv32 {
    ((priority as bv32) << 26) | ((pgn & 0x3FF00) << 8) | ((da as bv32) << 8) | sa as bv32 | 0x8000_0000
  }

  /** Decoding a PDU2 identifier, field by field. */
  lemma ParsePdu2(id: bv32)
    requires PduFormat(id) >= 0xF0
    ensures ParseJ1939(id) == Header(((id >> 26) & 7) as bv8, (id >> 8) & 0x3FFFF, 255, (id & 0xFF) as bv8)
  {
  }

  /** Decoding a PDU1 identifier, field by field. */
  lemma ParsePdu1(id: bv32)
    requires PduFormat(id) < 0xF0
    ensures ParseJ1939(id) == Header(((id >> 26) & 7) as bv8, (id >> 8) & 0x3FF00, PduSpecific(id), (id & 0xFF) as bv8)
  {
  }

  /** The encoder's PDU2 branch: the sums of disjoint fields are the identifier Pdu2Id. */
  lemma EncodePdu2(priority: bv8, pgn: bv32, sa: bv8, da: bv8)
    requires priority <= 7 && pgn >= 0xF000
    ensures GetJ1939Id(priority, pgn, sa, da) == Pdu2Id(priority, pgn, sa)
  {
  }

  /** The encoder's PDU1 branch builds Pdu1Id. */
  lemma EncodePdu1(priority: bv8, pgn: bv32, sa: bv8, da: bv8)
    requires priority <= 7 && pgn < 0xF000
    ensures GetJ1939Id(priority, pgn, sa, da) == Pdu1Id(priority, pgn, sa, da)
  {
  }

  /** The corrected encoder's PDU2 branch builds Pdu2Id. */
  lemma CorrectedPdu2(priority: bv8, pgn: bv32, sa: bv8, da: bv8)
    requires priority <= 7 && PgnFormat(pgn) >= 0xF0
    ensures GetJ1939IdCorrected(priority, pgn, sa, da) == Pdu2Id(priority, pgn, sa)
  {
  }

  /** The corrected encoder's PDU1 branch builds Pdu1Id. */
  lemma CorrectedPdu1(priority: bv8, pgn: bv32, sa: bv8, da: bv8)
    requires priority <= 7 && PgnFormat(pgn) < 0xF0
    ensures GetJ1939IdCorrected(priority, pgn, sa, da) == Pdu1Id(priority, pgn, sa, da)
  {
  }

  /** Where Pdu2Id puts priority, PF and PGN. */
  lemma Pdu2IdFields(priority: bv8, pgn: bv32, sa: bv8)
    requires priority <= 7 && pgn <= 0x3FFFF
    ensures PduFormat(Pdu2Id(priority, pgn, sa)) == PgnFormat(pgn)
    ensures ((Pdu2Id(priority, pgn, sa) >> 26) & 7) as bv8 == priority
    ensures (Pdu2Id(priority, pgn, sa) >> 8) & 0x3FFFF == pgn
  {
  }

  /** Where Pdu2Id puts the PGN's low byte and the source address. */
  lemma Pdu2IdLowFields(priority: bv8, pgn: bv32, sa: bv8)
    requires priority <= 7 && pgn <= 0x3FFFF
    ensures (Pdu2Id(priority, pgn, sa) >> 8) & 0x3FF00 == pgn & 0x3FF00
    ensures PduSpecific(Pdu2Id(priority, pgn, sa)) == (pgn & 0xFF) as bv8
    ensures (Pdu2Id(priority, pgn, sa) & 0xFF) as bv8 == sa
  {
  }

  /** Where Pdu1Id puts priority, PF and the PGN's upper bits. */
  lemma Pdu1IdFields(priority: bv8, pgn: bv32, sa: bv8, da: bv8)
    requires priority <= 7
    ensures PduFormat(Pdu1Id(priority, pgn, sa, da)) == PgnFormat(pgn)
    ensures ((Pdu1Id(priority, pgn, sa, da) >> 26) & 7) as bv8 == priority
    ensures (Pdu1Id(priority, pgn, sa, da) >> 8) & 0x3FF00 == pgn & 0x3FF00
  {
  }

  /** Where Pdu1Id puts destination and source address. */
  lemma Pdu1IdLowFields(priority: bv8, pgn: bv32, sa: bv8, da: bv8)
    requires priority <= 7
    ensures PduSpecific(Pdu1Id(priority, pgn, sa, da)) == da
    ensures (Pdu1Id(priority, pgn, sa, da) & 0xFF) as bv8 == sa
  {
  }

  /** A PDU2 identifier is rebuilt from its decoded fields. */
  lemma Pdu2IdFromFields(id: bv32)
    ensures Pdu2Id(((id >> 26) & 7) as bv8, (id >> 8) & 0x3FFFF, (id & 0xFF) as bv8) == (id & 0x1FFF_FFFF) | 0x8000_0000
  {
  }

  /** A PDU1 identifier is rebuilt from its decoded fields. */
  lemma Pdu1IdFromFields(id: bv32)
    ensures Pdu1Id(((id >> 26) & 7) as bv8, (id >> 8) & 0x3FF00, (id & 0xFF) as bv8, PduSpecific(id)) == (id & 0x1FFF_FFFF) | 0x8000_0000
  {
  }

  /** A PDU1 identifier's fields laid out as PDU2 lose the PS byte. */
  lemma Pdu2IdFromPdu1Fields(id: bv32)
    ensures Pdu2Id(((id >> 26) & 7) as bv8, (id >> 8) & 0x3FF00, (id & 0xFF) as bv8) == (id & 0x1FFF_00FF) | 0x8000_0000
  {
  }

  /**
    Decoding reads the fields where section 5.2 of SAE J1939-21 puts them:
    priority from bits 26-28, source address from bits 0-7, and PGN and
    destination according to the PF byte.
  */
  lemma ParseJ1939Fields(id: bv32)
    ensures var r := ParseJ1939(id);
            && r.priority as bv32 == (id >> 26) & 7
            && r.sa as bv32 == id & 0xFF
            && CanonicalPgn(r.pgn)
            && (PduFormat(id) >= 0xF0 ==> r.da == 255 && r.pgn == (id >> 8) & 0x3FFFF)
            && (PduFormat(id) < 0xF0 ==>
                  r.da == PduSpecific(id) && r.pgn & 0xFF == 0 && r.pgn >> 8 == (id >> 16) & 0x3FF)
  {
    var r := ParseJ1939(id);
    if PduFormat(id) >= 0xF0 {
      assert PgnFormat(r.pgn) == PduFormat(id);
    } else {
      assert r.pgn & 0xFF == 0;
    }
  }

  /**
    The encoder sets the extended-frame flag, leaves bits 29-30 clear and
    places priority, source address, PGN and destination in their fields.
  */
  lemma GetJ1939IdFields(priority: bv8, pgn: bv32, sa: bv8, da: bv8)
    requires priority <= 7
    ensures var r := GetJ1939Id(priority, pgn, sa, da);
            && r & 0x6000_0000 == 0
            && (r >> 26) & 7 == priority as bv32
            && r & 0xFF == sa as bv32
            && (pgn >= 0xF000 ==> (r >> 8) & 0x3FFFF == pgn & 0x3FFFF)
            && (pgn < 0xF000 ==> (r >> 16) & 0x3FF == (pgn >> 8) & 0x3FF && PduSpecific(r) == da)
  {
    if pgn >= 0xF000 {
    } else {
    }
  }

  /** Identifiers equal in bits 0-28 agree on PF, priority and the PDU2 PGN. */
  lemma SameLowBitsFields(a: bv32, b: bv32)
    requires a & 0x1FFF_FFFF == b & 0x1FFF_FFFF
    ensures PduFormat(a) == PduFormat(b)
    ensures (a >> 26) & 7 == (b >> 26) & 7
    ensures (a >> 8) & 0x3FFFF == (b >> 8) & 0x3FFFF
  {
  }

  /** Identifiers equal in bits 0-28 agree on the PDU1 PGN, PS and source address. */
  lemma SameLowBitsLowFields(a: bv32, b: bv32)
    requires a & 0x1FFF_FFFF == b & 0x1FFF_FFFF
    ensures (a >> 8) & 0x3FF00 == (b >> 8) & 0x3FF00
    ensures PduSpecific(a) == PduSpecific(b)
    ensures a & 0xFF == b & 0xFF
  {
  }

  /** Bits 29-31, the extended-frame flag among them, never affect decoding. */
  lemma ParseIgnoresTopBits(id: bv32, top: bv32)
    ensures ParseJ1939(id) == ParseJ1939((id & 0x1FFF_FFFF) | (top & 0xE000_0000))
  {
    var id' := (id & 0x1FFF_FFFF) | (top & 0xE000_0000);
    assert id' & 0x1FFF_FFFF == id & 0x1FFF_FFFF;
    SameLowBitsFields(id, id');
    SameLowBitsLowFields(id, id');
    if PduFormat(id) >= 0xF0 {
      ParsePdu2(id);
      ParsePdu2(id');
    } else {
      ParsePdu1(id);
      ParsePdu1(id');
    }
  }

  /** The boundary of the format split: PF = 0xF0 is PDU2, PF = 0xEF is PDU1. */
  lemma ParseFormatBoundary(id: bv32)
    ensures PduFormat(id) == 0xF0 ==> ParseJ1939(id).da == 255
    ensures PduFormat(id) == 0xEF ==> ParseJ1939(id).da == PduSpecific(id) && ParseJ1939(id).pgn & 0xFF == 0
  {
    if PduFormat(id) == 0xEF {
    }
  }

  /** In PDU2 encoding the destination address has no effect. */
  lemma GetJ1939IdIgnoresDaInPdu2(priority: bv8, pgn: bv32, sa: bv8, da1: bv8, da2: bv8)
    requires priority <= 7 && pgn >= 0xF000
    ensures GetJ1939Id(priority, pgn, sa, da1) == GetJ1939Id(priority, pgn, sa, da2)
  {
    EncodePdu2(priority, pgn, sa, da1);
    EncodePdu2(priority, pgn, sa, da2);
  }

  /** In PDU1 encoding the low byte of the PGN has no effect. */
  lemma GetJ1939IdIgnoresPgnLowByteInPdu1(priority: bv8, pgn1: bv32, pgn2: bv32, sa: bv8, da: bv8)
    requires priority <= 7 && pgn1 < 0xF000 && pgn2 < 0xF000 && pgn1 >> 8 == pgn2 >> 8
    ensures GetJ1939Id(priority, pgn1, sa, da) == GetJ1939Id(priority, pgn2, sa, da)
  {
    EncodePdu1(priority, pgn1, sa, da);
    EncodePdu1(priority, pgn2, sa, da);
    assert 0x3FF00 & pgn1 == 0x3FF00 & pgn2;
  }

  /** Encode then decode, for PGNs of data page 0 (at most 0xFFFF). */
  lemma ParseAfterGetJ1939Id(priority: bv8, pgn: bv32, sa: bv8, da: bv8)
    requires priority <= 7 && pgn <= 0xFFFF
    ensures 0xF000 <= pgn ==>
              ParseJ1939(GetJ1939Id(priority, pgn, sa, da)) == Header(priority, pgn, 255, sa)
    ensures pgn < 0xF000 && pgn & 0xFF == 0 ==>
              ParseJ1939(GetJ1939Id(priority, pgn, sa, da)) == Header(priority, pgn, da, sa)
  {
    if pgn >= 0xF000 {
      ParseAfterGetJ1939IdAsWritten(priority, pgn, sa, da);
    } else if pgn & 0xFF == 0 {
      ParseAfterGetJ1939IdAsWritten(priority, pgn, sa, da);
    }
  }

  /**
    Decode then encode: the low 29 bits come back, with the extended-frame
    flag set, whenever DP and EDP are clear or the identifier is PDU2.
  */
  lemma GetJ1939IdAfterParse(id: bv32)
    requires id & 0x0300_0000 == 0 || PduFormat(id) >= 0xF0
    ensures var h := ParseJ1939(id);
            GetJ1939Id(h.priority, h.pgn, h.sa, h.da) == (id & 0x1FFF_FFFF) | 0x8000_0000
  {
    GetJ1939IdAfterParseAsWritten(id);
  }

  /**
    Encode then decode for every canonical PGN, as the code is written: a PDU1
    group on a data page (pgn >= 0x10000) is encoded as PDU2, so its
    destination address comes back as 0.
  */
  lemma ParseAfterGetJ1939IdAsWritten(priority: bv8, pgn: bv32, sa: bv8, da: bv8)
    requires priority <= 7 && CanonicalPgn(pgn)
    ensures ParseJ1939(GetJ1939Id(priority, pgn, sa, da)) ==
            Header(priority, pgn,
                   if PgnFormat(pgn) >= 0xF0 then 255
                   else if pgn >= 0xF000 then 0
                   else da,
                   sa)
  {
    if pgn >= 0xF000 {
      EncodePdu2(priority, pgn, sa, da);
      Pdu2IdFields(priority, pgn, sa);
      Pdu2IdLowFields(priority, pgn, sa);
      if PgnFormat(pgn) >= 0xF0 {
        ParsePdu2(Pdu2Id(priority, pgn, sa));
      } else {
        ParsePdu1(Pdu2Id(priority, pgn, sa));
      }
    } else {
      EncodePdu1(priority, pgn, sa, da);
      Pdu1IdFields(priority, pgn, sa, da);
      Pdu1IdLowFields(priority, pgn, sa, da);
      assert PgnFormat(pgn) < 0xF0;
      ParsePdu1(Pdu1Id(priority, pgn, sa, da));
    }
  }

  /**
    Decode then encode as the code is written, for every identifier: a PDU1
    identifier with DP or EDP set is re-encoded as PDU2 and loses its PS byte.
  */
  lemma GetJ1939IdAfterParseAsWritten(id: bv32)
    ensures var h := ParseJ1939(id);
            GetJ1939Id(h.priority, h.pgn, h.sa, h.da) ==
            if PduFormat(id) < 0xF0 && id & 0x0300_0000 != 0
            then (id & 0x1FFF_00FF) | 0x8000_0000
            else (id & 0x1FFF_FFFF) | 0x8000_0000
  {
    var h := ParseJ1939(id);
    if PduFormat(id) >= 0xF0 {
      Pdu2IdFromFields(id);
      ParsePdu2(id);
      assert h.pgn >= 0xF000;
      EncodePdu2(h.priority, h.pgn, h.sa, h.da);
    } else {
      ParsePdu1(id);
      if id & 0x0300_0000 != 0 {
        Pdu2IdFromPdu1Fields(id);
        assert h.pgn >= 0xF000;
        EncodePdu2(h.priority, h.pgn, h.sa, h.da);
      } else {
        Pdu1IdFromFields(id);
        assert h.pgn < 0xF000;
        EncodePdu1(h.priority, h.pgn, h.sa, h.da);
      }
    }
  }

  /**
    The two format tests disagree: PGN 0x1EF00 (DP set, PF 0xEF) is encoded as
    PDU2, dropping the destination, and decoded as PDU1 with destination 0.
    Decoding 0x81EF1234 and encoding again clears its PS byte.
  */
  lemma DataPageRoundTripCounterexample()
    ensures GetJ1939Id(6, 0x1EF00, 0x17, GlobalAddress) == 0x99EF_0017
    ensures ParseJ1939(0x99EF_0017) == Header(6, 0x1EF00, 0x00, 0x17)
    ensures ParseJ1939(GetJ1939Id(6, 0x1EF00, 0x17, GlobalAddress)) != Header(6, 0x1EF00, 255, 0x17)
    ensures ParseJ1939(0x81EF_1234) == Header(0, 0x1EF00, 0x12, 0x34)
    ensures GetJ1939Id(0, 0x1EF00, 0x34, 0x12) == 0x81EF_0034
  {
  }

  /** The corrected encoder is a right inverse of decoding on canonical PGNs. */
  lemma ParseAfterGetJ1939IdCorrected(priority: bv8, pgn: bv32, sa: bv8, da: bv8)
    requires priority <= 7 && CanonicalPgn(pgn)
    ensures ParseJ1939(GetJ1939IdCorrected(priority, pgn, sa, da)) ==
            Header(priority, pgn, if PgnFormat(pgn) >= 0xF0 then 255 else da, sa)
  {
    if PgnFormat(pgn) >= 0xF0 {
      CorrectedPdu2(priority, pgn, sa, da);
      Pdu2IdFields(priority, pgn, sa);
      Pdu2IdLowFields(priority, pgn, sa);
      ParsePdu2(Pdu2Id(priority, pgn, sa));
    } else {
      CorrectedPdu1(priority, pgn, sa, da);
      Pdu1IdFields(priority, pgn, sa, da);
      Pdu1IdLowFields(priority, pgn, sa, da);
      ParsePdu1(Pdu1Id(priority, pgn, sa, da));
    }
  }

  /** The corrected encoder rebuilds every identifier from its decoded fields. */
  lemma GetJ1939IdCorrectedAfterParse(id: bv32)
    ensures var h := ParseJ1939(id);
            GetJ1939IdCorrected(h.priority, h.pgn, h.sa, h.da) == (id & 0x1FFF_FFFF) | 0x8000_0000
  {
    var h := ParseJ1939(id);
    if PduFormat(id) >= 0xF0 {
      Pdu2IdFromFields(id);
      ParsePdu2(id);
      assert PgnFormat(h.pgn) == PduFormat(id);
      CorrectedPdu2(h.priority, h.pgn, h.sa, h.da);
    } else {
      Pdu1IdFromFields(id);
      ParsePdu1(id);
      assert PgnFormat(h.pgn) == PduFormat(id);
      CorrectedPdu1(h.priority, h.pgn, h.sa, h.da);
    }
  }

  /** Both encoders agree on data page 0, so on every PGN the server sends. */
  lemma GetJ1939IdCorrectedAgrees(priority: bv8, pgn: bv32, sa: bv8, da: bv8)
    requires priority <= 7 && pgn <= 0xFFFF
    ensures GetJ1939IdCorrected(priority, pgn, sa, da) == GetJ1939Id(priority, pgn, sa, da)
  {
    if pgn >= 0xF000 {
      assert PgnFormat(pgn) >= 0xF0;
      EncodePdu2(priority, pgn, sa, da);
      CorrectedPdu2(priority, pgn, sa, da);
    } else {
      assert PgnFormat(pgn) < 0xF0;
      EncodePdu1(priority, pgn, sa, da);
      CorrectedPdu1(priority, pgn, sa, da);
    }
  }
}
