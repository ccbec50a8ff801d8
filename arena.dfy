/** The `string_storage` struct and AddStringToStorage over arrays (transpiler.cpp:726-766). */
module ArenaImpl {

  import opened Tokens
  import opened ArenaSpec

  class StringStorage {
    const capacity: nat
    /** Strings: the byte buffer; Length bytes of it are in use. */
    const strings: array<Byte>
    var length: nat
    /** StringArray: one offset into Strings per stored string. */
    const stringArray: array<nat>
    var stringCount: nat

    ghost predicate Valid()
      reads this
    {
      strings.Length == capacity && stringArray.Length == MaxStringCount
      && length <= capacity && stringCount <= MaxStringCount
    }

    /** The stored contents as an `ArenaValue`. */
    function Value(): ArenaValue
      requires Valid()
      reads this, strings, stringArray
    {
      ArenaValue(strings[..length], capacity, stringArray[..stringCount])
    }

    /** InitStringStorage (transpiler.cpp:738-746) over a fresh buffer of `capacity` bytes. */
    constructor (capacity: nat)
      ensures Valid() && fresh(strings) && fresh(stringArray)
      ensures ArenaValid(Value()) && Value() == InitStorage(capacity)
    {
      this.capacity := capacity;
      strings := new Byte[capacity](_ => NUL);
      stringArray := new nat[MaxStringCount](_ => 0);
      length := 0;
      stringCount := 0;
    }

    /**
     * AddStringToStorage (transpiler.cpp:748-766), with the table and buffer bounds
     * checked (`AddSpec` says how the C tests differ): takes the next slot, then
     * copies `s` byte by byte while the buffer has room.
     */
    method AddStringToStorage(s: seq<Byte>) returns (index: int)
      requires Valid() && ArenaValid(Value())
      modifies this, strings, stringArray
      ensures Valid() && Added(index, Value()) == AddSpec(old(Value()), s)
    {
      if stringCount >= MaxStringCount {
        return -1;
      }
      ghost var before := strings[..length];
      ghost var start := length;
      stringArray[stringCount] := length;
      stringCount := stringCount + 1;
      assert stringArray[..stringCount] == old(stringArray[..stringCount]) + [start];
      var i := 0;
      while i < |s|
        invariant 0 <= i <= |s| && length == start + i <= capacity && stringCount <= MaxStringCount
        invariant stringArray[..stringCount] == old(stringArray[..stringCount]) + [start]
        invariant forall k :: 0 <= k < start ==> strings[k] == before[k]
        invariant forall k :: 0 <= k < i ==> strings[start + k] == s[k]
      {
        if length < capacity {
          strings[length] := s[i];
          length := length + 1;
        } else {
          assert strings[..length] == before + s[..i];
          return -1;
        }
        i := i + 1;
      }
      assert strings[..length] == before + s;
      return stringCount - 1;
    }
  }
}
