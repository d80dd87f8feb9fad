/** Relocatable objects as the ELF reader hands them to the linker. */
module ElfObject {
  import opened Bytes
  import opened Wrappers

  const SHF_WRITE: bv64 := 0x1
  const SHF_ALLOC: bv64 := 0x2
  const SHF_EXECINSTR: bv64 := 0x4
  const SHT_NOBITS: nat := 8
  const SHN_UNDEF: nat := 0
  const SHN_ABS: nat := 0xfff1
  const STB_GLOBAL: nat := 1
  const STB_WEAK: nat := 2
  const STT_SECTION: nat := 3
  const ET_REL: nat := 1
  const EM_X86_64: nat := 62

  const R_X86_64_64: nat := 1
  const R_X86_64_PC32: nat := 2
  const R_X86_64_PLT32: nat := 4
  const R_X86_64_GOTPCREL: nat := 9
  const R_X86_64_32: nat := 10
  const R_X86_64_32S: nat := 11
  const R_X86_64_GOTPCRELX: nat := 41
  const R_X86_64_REX_GOTPCRELX: nat := 42

  type Name = seq<byte>

  datatype Section = Section(index: nat, shType: nat, flags: bv64, offset: nat, size: nat, align: nat)

  datatype Symbol = Symbol(index: nat, name: Name, bind: nat, stype: nat, shndx: nat, value: nat)

  datatype Relocation = Relocation(target: nat, offset: nat, sym: nat, kind: nat, addend: int)

  datatype Object = Object(
    eType: nat, eMachine: nat, bytes: seq<byte>,
    sections: seq<Section>, symbols: seq<Symbol>, relocations: seq<Relocation>)
  {
    /** What the reader guarantees: entries carry their own position, names are NUL-free. */
    predicate Valid()
    {
      && (forall i | 0 <= i < |sections| :: sections[i].index == i)
      && (forall i | 0 <= i < |symbols| :: symbols[i].index == i && 0 !in symbols[i].name)
    }

    /** `size` bytes from `offset` on, if the file has them all. */
    function Slice(offset: nat, size: nat): Option<seq<byte>>
    {
      if offset + size <= |bytes| then Some(bytes[offset..offset + size]) else None
    }
  }

  predicate ValidObjects(objs: seq<Object>)
  {
    forall o | 0 <= o < |objs| :: objs[o].Valid()
  }

  datatype LinkError =
    | NoInput
    | NotRelocatable(obj: nat)
    | WrongMachine(obj: nat)
    | MultipleDefinition(name: Name)
    | BadSlice(obj: nat)
    | NoSuchSymbol(sym: nat)
    | UndefinedReference(name: Name)
    | UnsupportedRelocation(kind: nat)
    | FieldOutOfRange          // the program panics instead of returning an error
    | NoEntry(name: Name)
    | FileOutOfRange           // likewise
}
