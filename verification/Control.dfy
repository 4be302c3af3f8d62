/** The control word of a hardware descriptor: magic, adjacent count and flags packed into 32 bits. */
module Control {

  const DESC_MAGIC: bv32 := 0xAD4B_0000
  const DESC_STOPPED: bv32 := 0x01
  const DESC_COMPLETED: bv32 := 0x02
  const DESC_EOP: bv32 := 0x10
  const LS_BYTE_MASK: bv32 := 0xFF

  /** Descriptors never report more than 63 adjacent ones. */
  const MAX_ADJ_BLOCK_SIZE: nat := 0x40

  datatype Update = Updated(control: bv32) | Invalid

  /** xdma_desc_control_set: replace the low byte, refuse anything wider. */
  function ControlSet(control: bv32, field: bv32): Update {
    if field & !LS_BYTE_MASK != 0 then Invalid else Updated((control & !LS_BYTE_MASK) | field)
  }

  /** xdma_desc_adjacent: keep the low byte and bits 12-15, merge the magic and the count. */
  function SetAdjacent(control: bv32, adjacent: bv32): bv32 {
    (control & 0x0000_F0FF) | (0xAD4B_0000 | (adjacent << 8))
  }

  // What the hardware reads; the count is a field of six bits.
  function Magic(control: bv32): bv32 { control & 0xFFFF_0000 }
  function Adjacent(control: bv32): bv6 { ((control >> 8) & 0x3F) as bv6 }
  function AdjacentCount(control: bv32): nat { Adjacent(control) as nat }
  function Flags(control: bv32): bv32 { control & 0xFF }

  lemma SetAdjacentMagic(control: bv32, count: bv6)
    ensures Magic(SetAdjacent(control, count as bv32)) == DESC_MAGIC
  {
  }

  lemma SetAdjacentFlags(control: bv32, count: bv6)
    ensures Flags(SetAdjacent(control, count as bv32)) == Flags(control)
  {
  }

  /** The mask lets bits 12 and 13 of the old word through: they are merged into the count that is read. */
  lemma SetAdjacentCount(control: bv32, count: bv6)
    ensures Adjacent(SetAdjacent(control, count as bv32)) == count | Adjacent(control & 0x3000)
  {
  }

  /** So the count reads back as it was set exactly when those old bits are bits of the new count. */
  lemma CountDecodesIff(control: bv32, count: bv6)
    ensures Adjacent(SetAdjacent(control, count as bv32)) == count <==> Adjacent(control & 0x3000) & !count == 0
  {
    SetAdjacentCount(control, count);
  }

  lemma ControlSetDecodes(control: bv32, field: bv32)
    ensures ControlSet(control, field).Updated? <==> field <= 0xFF
    ensures field <= 0xFF ==> var c := ControlSet(control, field).control;
      Flags(c) == field && Magic(c) == Magic(control) && Adjacent(c) == Adjacent(control)
  {
  }

  /** Setting a second count over a first one can merge the two: 16 then 1 reads back as 17. */
  lemma SecondCountMerges()
    ensures Adjacent(SetAdjacent(SetAdjacent(DESC_MAGIC, 16), 1)) == 17
  {
  }

  /** The flags of the last descriptor of a transfer. */
  const LAST_FLAGS: bv32 := DESC_STOPPED | DESC_EOP | DESC_COMPLETED

  /** The word before the count is merged in: the magic alone, and the last flags set on the last descriptor. */
  function FlaggedWord(last: bool): bv32 {
    if last then ControlSet(DESC_MAGIC, LAST_FLAGS).control else DESC_MAGIC
  }

  /** The control word transfer_init leaves decodes to what went into it. */
  function ControlWord(last: bool, adjacent: nat): (c: bv32)
    requires adjacent < MAX_ADJ_BLOCK_SIZE
    ensures Magic(c) == DESC_MAGIC
    ensures Flags(c) == if last then LAST_FLAGS else 0
    ensures AdjacentCount(c) == adjacent
  {
    ControlWordDecodes(last, adjacent);
    SetAdjacent(FlaggedWord(last), adjacent as bv6 as bv32)
  }

  lemma ControlWordDecodes(last: bool, adjacent: nat)
    requires adjacent < MAX_ADJ_BLOCK_SIZE
    ensures var c := SetAdjacent(FlaggedWord(last), adjacent as bv6 as bv32);
      && Magic(c) == DESC_MAGIC
      && Flags(c) == (if last then LAST_FLAGS else 0)
      && AdjacentCount(c) == adjacent
  {
    var count := adjacent as bv6;
    SetAdjacentMagic(FlaggedWord(last), count);
    SetAdjacentFlags(FlaggedWord(last), count);
    CountDecodesIff(FlaggedWord(last), count);
    FlaggedWordParts(last, count);
    hide SetAdjacent, FlaggedWord, Magic, Flags, Adjacent, DESC_MAGIC, LAST_FLAGS;
  }

  lemma FlaggedWordParts(last: bool, count: bv6)
    ensures Flags(FlaggedWord(last)) == if last then LAST_FLAGS else 0
    ensures Adjacent(FlaggedWord(last) & 0x3000) & !count == 0
  {
  }

  /** The word as a number: the magic 0xAD4B on top, the count from bit 8 on, and on the last descriptor bits 0 (stop),
      1 (completed) and 4 (end of packet). */
  lemma ControlWordBits(last: bool, adjacent: nat)
    requires adjacent < MAX_ADJ_BLOCK_SIZE
    ensures ControlWord(last, adjacent) == 0xAD4B_0000 | (adjacent as bv6 as bv32 << 8) | if last then 0x13 else 0
  {
    WordBits(last, adjacent as bv6);
  }

  lemma WordBits(last: bool, count: bv6)
    ensures SetAdjacent(FlaggedWord(last), count as bv32) == 0xAD4B_0000 | (count as bv32 << 8) | if last then 0x13 else 0
  {
  }

  /** The three flag bits of a word that ends with the given flags, one by one. */
  lemma ThreeFlags(control: bv32)
    ensures Flags(control) == LAST_FLAGS ==> control & 0x01 != 0 && control & 0x02 != 0 && control & 0x10 != 0
    ensures Flags(control) == 0 ==> control & 0x01 == 0 && control & 0x02 == 0 && control & 0x10 == 0
  {
  }
}
