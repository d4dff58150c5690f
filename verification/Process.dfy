/** The machine state an unwinder sees: registers of one frame, and memory. */
module Process {
  import opened Words

  datatype Ctx = Ctx(pc: u64, sp: u64, fp: u64)

  /** Mapped words by address; an unmapped address loads as zero. */
  type Memory = map<u64, u64>

  function Load(mem: Memory, address: int): u64 {
    var a := U64(address);
    if a in mem then mem[a] else 0
  }
}
