/** The memory of the unwound process, as far as it can be read without a fault. */
module UserMemory {
  import opened Words

  /** The word at an address, when it can be read, and whether some bytes there can. */
  datatype Memory = ProcessMemory(word: Word -> Option<Word>, readable: (Word, nat) -> bool)

  /** `_stp_read_address` of an `unsigned long`. */
  function ReadWord(mem: Memory, addr: Word): Option<Word> {
    mem.word(addr)
  }
}
