/** ELF dynamic relocations and symbols, as far as the converter looks at them. */
module Relocs {
  import opened Common
  import opened ExportTrie

  const R_ABS64: nat := 257
  const R_GLOB_DAT: nat := 1025
  const R_JUMP_SLOT: nat := 1026
  const R_RELATIVE: nat := 1027

  /** `addend` is the two's complement pattern of r_addend. */
  datatype Rela = Rela(offset: u64, kind: nat, sym: nat, addend: u64)

  datatype ElfSym = ElfSym(name: Str, bind: nat, shndx: nat, value: u64)

  datatype Dynamic = Dynamic(rela: seq<Rela>, jmprel: seq<Rela>, symtab: seq<ElfSym>)

  predicate SymbolReloc(r: Rela) {
    r.kind == R_GLOB_DAT || r.kind == R_JUMP_SLOT || r.kind == R_ABS64
  }

  /** A symbol relocation that the image itself resolves. */
  predicate DefinedReloc(dyn: Dynamic, r: Rela) {
    SymbolReloc(r) && 0 < r.sym < |dyn.symtab| && dyn.symtab[r.sym].shndx != 0
  }
}
