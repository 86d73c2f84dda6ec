/** The strings a suspended transfer keeps on the Lua stack above its own slots. */
module Pieces {
  import opened Words

  /** From lua.h: how many stack slots a C function may use. */
  const LUA_MINSTACK := 20

  /** What lua_concat() makes of them. */
  function Concat(pieces: seq<seq<u8>>): seq<u8> {
    if pieces == [] then [] else Concat(pieces[..|pieces| - 1]) + pieces[|pieces| - 1]
  }

  lemma ConcatPush(pieces: seq<seq<u8>>, piece: seq<u8>)
    ensures Concat(pieces + [piece]) == Concat(pieces) + piece
    ensures Concat([piece]) == piece
  {
    assert (pieces + [piece])[..|pieces|] == pieces;
    assert [piece][..0] == [] && Concat([]) == [];
  }
}
