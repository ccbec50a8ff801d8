/**
 * The string arena of the parser (`string_storage`, transpiler.cpp:726-766): one
 * append-only byte buffer and a table of offsets, one per stored string.
 */
module ArenaSpec {

  import opened Tokens

  /** MAX_STRING_COUNT (transpiler.cpp:726): the slots of StringArray. */
  const MaxStringCount: nat := 10000

  /**
   * The contents of a `string_storage`: `strings` is Strings[0 .. Length), `offsets`
   * holds StringArray[0 .. StringCount) as offsets into Strings.
   */
  datatype ArenaValue = ArenaValue(strings: seq<Byte>, capacity: nat, offsets: seq<nat>)

  /** The buffer holds at most Capacity bytes and the table at most MAX_STRING_COUNT slots. */
  predicate ArenaValid(a: ArenaValue) {
    |a.strings| <= a.capacity && |a.offsets| <= MaxStringCount
    && forall i :: 0 <= i < |a.offsets| ==> a.offsets[i] <= |a.strings|
  }

  /** InitStringStorage (transpiler.cpp:738-746). */
  function InitStorage(capacity: nat): (a: ArenaValue)
    ensures ArenaValid(a) && a.strings == [] && a.offsets == []
  {
    ArenaValue([], capacity, [])
  }

  /** The result of AddStringToStorage: the returned index and the arena after the call. */
  datatype Added = Added(index: int, arena: ArenaValue)

  /**
   * AddStringToStorage (transpiler.cpp:748-766) with the two checks it evidently
   * intends: a byte is stored only while Length < Capacity, and no slot is taken
   * once StringCount has reached MAX_STRING_COUNT. The slot is taken before the
   * bytes are copied, so a string that does not fit leaves its slot and the bytes
   * that did fit, and the call returns -1.
   */
  function AddSpec(a: ArenaValue, s: seq<Byte>): (r: Added)
    requires ArenaValid(a)
    ensures ArenaValid(r.arena) && r.arena.capacity == a.capacity
    ensures a.strings <= r.arena.strings && a.offsets <= r.arena.offsets
    ensures r.index == -1 || r.index == |a.offsets|
    ensures r.index == |a.offsets| <==> |a.offsets| < MaxStringCount && |a.strings| + |s| <= a.capacity
    ensures r.index == |a.offsets| ==> r.arena == ArenaValue(a.strings + s, a.capacity, a.offsets + [|a.strings|])
    ensures |a.offsets| >= MaxStringCount ==> r.arena == a
    ensures r.index == -1 && |a.offsets| < MaxStringCount ==>
      r.arena == ArenaValue(a.strings + s[..a.capacity - |a.strings|], a.capacity, a.offsets + [|a.strings|])
  {
    if |a.offsets| >= MaxStringCount then
      Added(-1, a)
    else
      var room := a.capacity - |a.strings|;
      var slots := a.offsets + [|a.strings|];
      if |s| <= room then
        Added(|a.offsets|, ArenaValue(a.strings + s, a.capacity, slots))
      else
        Added(-1, ArenaValue(a.strings + s[..room], a.capacity, slots))
  }

  /** The bytes of `s` before its first NUL: what `%s` writes of a C string. */
  function CString(s: seq<Byte>): (r: seq<Byte>)
    ensures r <= s && NUL !in r
    ensures |r| < |s| ==> s[|r|] == NUL
  {
    if s == [] || s[0] == NUL then [] else [s[0]] + CString(s[1..])
  }

  /** The string StringArray[i] points at. */
  function Lookup(a: ArenaValue, i: nat): seq<Byte>
    requires ArenaValid(a) && i < |a.offsets|
  {
    CString(a.strings[a.offsets[i]..])
  }

  /** A stored string reads back as the text it was given, up to its first NUL. */
  lemma AddThenLookup(a: ArenaValue, s: seq<Byte>)
    requires ArenaValid(a) && AddSpec(a, s).index >= 0
    ensures Lookup(AddSpec(a, s).arena, AddSpec(a, s).index) == CString(s)
  {
    var r := AddSpec(a, s).arena;
    assert r.offsets[|a.offsets|] == |a.strings|;
    assert r.strings[|a.strings|..] == s;
  }

  /** A string that holds its NUL stays readable after later additions. */
  lemma {:induction false} CStringExtends(s: seq<Byte>, t: seq<Byte>)
    requires NUL in s
    ensures CString(s + t) == CString(s)
  {
    if s[0] != NUL {
      assert (s + t)[1..] == s[1..] + t;
      CStringExtends(s[1..], t);
    }
  }

  /** Earlier strings keep reading the same once they end in a NUL. */
  lemma AddKeepsEarlier(a: ArenaValue, s: seq<Byte>, i: nat)
    requires ArenaValid(a) && i < |a.offsets| && NUL in a.strings[a.offsets[i]..]
    ensures Lookup(AddSpec(a, s).arena, i) == Lookup(a, i)
  {
    var r := AddSpec(a, s).arena;
    var tail := r.strings[|a.strings|..];
    assert r.strings == a.strings + tail;
    assert r.strings[a.offsets[i]..] == a.strings[a.offsets[i]..] + tail;
    CStringExtends(a.strings[a.offsets[i]..], tail);
  }

  /**
   * AddStringToStorage as written: the copy test is `Length <= Capacity`, so one
   * byte more than the buffer holds is stored (at index Capacity), and StringCount
   * is never compared with MAX_STRING_COUNT, so a slot past the table is taken.
   */
  function AddAsWritten(a: ArenaValue, s: seq<Byte>): (r: Added)
    requires |a.strings| <= a.capacity + 1
    ensures |r.arena.offsets| == |a.offsets| + 1 && r.arena.offsets[|a.offsets|] == |a.strings|
  {
    var slots := a.offsets + [|a.strings|];
    var room := a.capacity + 1 - |a.strings|;
    if |s| <= room then Added(|a.offsets|, ArenaValue(a.strings + s, a.capacity, slots))
    else Added(-1, ArenaValue(a.strings + s[..room], a.capacity, slots))
  }

  /** As written, adding one byte to a full buffer stores it at index Capacity. */
  lemma AddAsWrittenOverrunsBuffer(capacity: nat, full: seq<Byte>)
    requires |full| == capacity
    ensures var r := AddAsWritten(ArenaValue(full, capacity, []), ['x']);
      r.index == 0 && |r.arena.strings| == capacity + 1 && r.arena.strings[capacity] == 'x'
    ensures AddSpec(ArenaValue(full, capacity, []), ['x']).index == -1
  {
  }

  /** As written, the call after MAX_STRING_COUNT strings takes slot MAX_STRING_COUNT. */
  lemma AddAsWrittenOverrunsTable(a: ArenaValue)
    requires ArenaValid(a) && |a.offsets| == MaxStringCount
    ensures |AddAsWritten(a, []).arena.offsets| == MaxStringCount + 1
    ensures AddAsWritten(a, []).index == MaxStringCount
    ensures AddSpec(a, []) == Added(-1, a)
  {
  }
}
