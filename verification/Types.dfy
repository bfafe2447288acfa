/** Machine integers and the small shared notions of every component. */
module Types {

  type Byte = x: int | 0 <= x < 0x100
  type U16 = x: int | 0 <= x < 0x1_0000
  type U32 = x: int | 0 <= x < 0x1_0000_0000
  type U64 = x: int | 0 <= x < 0x1_0000_0000_0000_0000

  datatype Transport = Udp | Tcp

  predicate SuffixOf<T(==)>(short: seq<T>, long: seq<T>) {
    |short| <= |long| && long[|long| - |short|..] == short
  }
}
