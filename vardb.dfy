/** The calculator's variable table CVarDB (CVarDB.h, CVarDB.cpp): a fixed array of SIZE_DB
    variable slots of which the first `size` are in use, slot 0 being the answer variable
    `ans`. Names are looked up by linear search, new variables are appended, and `dump`
    starts the table over.

    A slot is modelled as a (name, value) record; the name is None where CVariable holds a
    NULL name pointer (a default-constructed or cleared slot). The first `size` slots, as a
    sequence, are the table's observable contents; the functions below describe them and
    the class's methods are proved against these functions. */
module VarTables {
  import opened Wrappers
  import opened Matrices

  /** SIZE_DB: the number of slots. */
  const SizeDB: nat := 20

  /** The name of slot 0. */
  const AnsName: string := "ans"

  /** A CVariable: its name and its matrix value. */
  datatype Slot = Slot(name: Option<string>, value: Matrix)

  /** A default-constructed or cleared CVariable: no name, the null matrix. */
  const Empty: Slot := Slot(None, Null)

  // ---------------------------------------------------------------- the table as a value

  /** The search loop from index i on: the first slot at or after i carrying `name`. */
  function FindFrom(entries: seq<Slot>, name: string, i: nat): (r: Option<nat>)
    requires i <= |entries|
    ensures r.Some? ==> i <= r.value < |entries| && entries[r.value].name == Some(name)
    ensures r.Some? ==> forall k :: i <= k < r.value ==> entries[k].name != Some(name)
    ensures r.None? ==> forall k :: i <= k < |entries| ==> entries[k].name != Some(name)
    decreases |entries| - i
  {
    if i == |entries| then None
    else if entries[i].name == Some(name) then Some(i)
    else FindFrom(entries, name, i + 1)
  }

  /** `search`: the index of the first entry named `name`, or None. */
  function Find(entries: seq<Slot>, name: string): (r: Option<nat>)
    ensures r.Some? ==> r.value < |entries| && entries[r.value].name == Some(name)
    ensures r.Some? ==> forall k :: 0 <= k < r.value ==> entries[k].name != Some(name)
    ensures r.None? ==> forall k :: 0 <= k < |entries| ==> entries[k].name != Some(name)
  {
    FindFrom(entries, name, 0)
  }

  /** `createVar`: with room left, a slot named `name` holding `value` is appended;
      a full table is left as it is. */
  function Created(entries: seq<Slot>, name: string, value: Matrix): (r: seq<Slot>)
    ensures |entries| <= |r| <= |entries| + 1 && r[..|entries|] == entries
    ensures |entries| <= SizeDB ==> |r| <= SizeDB
    ensures |r| == |entries| + 1 <==> |entries| < SizeDB
  {
    if |entries| < SizeDB then entries + [Slot(Some(name), value)] else entries
  }

  /** `*var = m`: the value of entry i is replaced and its name kept. */
  function Assigned(entries: seq<Slot>, i: nat, value: Matrix): (r: seq<Slot>)
    requires i < |entries|
    ensures |r| == |entries| && r[i].value == value
    ensures forall k :: 0 <= k < |r| ==> r[k].name == entries[k].name
    ensures forall k :: 0 <= k < |r| && k != i ==> r[k] == entries[k]
  {
    entries[i := entries[i].(value := value)]
  }

  /** `dump` as evidently intended: `ans` is reset to 0 and is the only entry left. */
  function Dumped(entries: seq<Slot>): (r: seq<Slot>)
    requires |entries| >= 1
    ensures r == [Slot(entries[0].name, Scalar(0.0))]
  {
    [entries[0].(value := Scalar(0.0))]
  }

  /** `dump` as written: the clearing loop clears slot 0 on every pass, so the one entry
      left has lost both its name and its value. */
  function DumpedAsWritten(entries: seq<Slot>): (r: seq<Slot>)
    requires |entries| >= 1
    ensures r == [Empty]
  {
    [Empty]
  }

  // ---------------------------------------------------------------- properties

  /** A name created where it was absent is found at the appended slot. */
  lemma CreateThenFind(entries: seq<Slot>, name: string, value: Matrix)
    requires |entries| < SizeDB && Find(entries, name) == None
    ensures Find(Created(entries, name, value), name) == Some(|entries|)
  {
    var r := Created(entries, name, value);
    assert r[|entries|].name == Some(name);
  }

  /** Creating one name does not change where any other name is found. */
  lemma CreateKeepsOthers(entries: seq<Slot>, name: string, value: Matrix, other: string)
    requires other != name
    ensures Find(Created(entries, name, value), other) == Find(entries, other)
  {
    var r := Created(entries, name, value);
    var f := Find(r, other);
    if f.Some? {
      assert f.value < |entries|;
      assert r[f.value] == entries[f.value];
    }
  }

  /** Creating a name that is already present appends a slot that search never reaches: the
      earlier slot still wins. */
  lemma CreateShadowed(entries: seq<Slot>, name: string, value: Matrix)
    requires Find(entries, name).Some?
    ensures Find(Created(entries, name, value), name) == Find(entries, name)
  {
    var r := Created(entries, name, value);
    var i := Find(entries, name).value;
    assert r[i] == entries[i];
  }

  /** Assigning a value never changes which slot a name is found in. */
  lemma AssignKeepsFind(entries: seq<Slot>, i: nat, value: Matrix, name: string)
    requires i < |entries|
    ensures Find(Assigned(entries, i, value), name) == Find(entries, name)
  {
    var r := Assigned(entries, i, value);
    var f, g := Find(r, name), Find(entries, name);
    if f.Some? {
      assert entries[f.value].name == Some(name);
    }
    if g.Some? {
      assert r[g.value].name == Some(name);
    }
  }

  /** After the intended `dump`, `ans` is found again in slot 0 and holds 0. */
  lemma DumpKeepsAns(entries: seq<Slot>)
    requires |entries| >= 1 && entries[0].name == Some(AnsName)
    ensures Find(Dumped(entries), AnsName) == Some(0)
    ensures Dumped(entries)[0].value == Scalar(0.0)
  {
    assert Dumped(entries)[0].name == Some(AnsName);
  }

  /** After `dump` as written, slot 0 no longer carries the name `ans` and its value is
      gone, where the intended `dump` keeps `ans` holding 0. Reading the nameless slot as a
      miss is the model's; the source's next `search` hands its NULL name to `strcmp`. */
  lemma DumpAsWrittenLosesAns(entries: seq<Slot>)
    requires |entries| >= 1 && entries[0].name == Some(AnsName)
    ensures |DumpedAsWritten(entries)| == 1
    ensures DumpedAsWritten(entries)[0].name != Some(AnsName)
    ensures DumpedAsWritten(entries)[0].value != Dumped(entries)[0].value
    ensures Find(DumpedAsWritten(entries), AnsName) == None
    ensures Find(Dumped(entries), AnsName) != Find(DumpedAsWritten(entries), AnsName)
  {
    DumpKeepsAns(entries);
  }

  // ---------------------------------------------------------------- the object

  class VarTable {
    var slots: array<Slot>   // m_pDB
    var size: int            // m_nSize

    /** SIZE_DB slots, of which the first `size` (at least `ans`, at most all) are in use. */
    predicate Valid()
      reads this
    {
      slots.Length == SizeDB && 1 <= size <= SizeDB
    }

    /** The entries in use. */
    function Entries(): (e: seq<Slot>)
      reads this, slots
      requires Valid()
      ensures 1 <= |e| <= SizeDB
    {
      slots[..size]
    }

    /** Slot 0 carries the name `ans`. */
    predicate AnsNamed()
      reads this, slots
      requires Valid()
    {
      slots[0].name == Some(AnsName)
    }

    /** `CVarDB()`: one entry, `ans` = 0; the other slots are default-constructed. */
    constructor ()
      ensures Valid() && AnsNamed() && fresh(slots)
      ensures Entries() == [Slot(Some(AnsName), Scalar(0.0))]
      ensures forall k :: 1 <= k < SizeDB ==> slots[k] == Empty
    {
      var a := new Slot[SizeDB](_ => Empty);
      a[0] := Slot(Some(AnsName), Scalar(0.0));
      slots := a;
      size := 1;
    }

    /** `search`: the first entry in use named `name`; nothing changes. */
    method Search(name: string) returns (r: Option<nat>)
      requires Valid()
      ensures r == Find(Entries(), name)
    {
      var i := 0;
      while i < size
        invariant 0 <= i <= size
        invariant forall k :: 0 <= k < i ==> slots[k].name != Some(name)
      {
        if slots[i].name == Some(name) {
          return Some(i);
        }
        i := i + 1;
      }
      return None;
    }

    /** `createVar(name, m)`: with room left, the next slot is named and given the value,
        the size grows by one and the slot's index is returned; otherwise nothing changes
        and None is returned. Slots below the old size, `ans` among them, are untouched. */
    method CreateVar(name: string, value: Matrix) returns (r: Option<nat>)
      requires Valid()
      modifies this, slots
      ensures Valid() && slots == old(slots)
      ensures Entries() == Created(old(Entries()), name, value)
      ensures old(size) < SizeDB ==>
        r == Some(old(size)) && size == old(size) + 1 &&
        slots[..] == old(slots[..])[old(size) := Slot(Some(name), value)]
      ensures old(size) >= SizeDB ==>
        r == None && size == old(size) && slots[..] == old(slots[..])
      ensures old(AnsNamed()) ==> AnsNamed()
    {
      if size < SizeDB {
        slots[size] := Slot(Some(name), value);
        r := Some(size);
        size := size + 1;
        assert slots[..size] == old(slots[..size]) + [Slot(Some(name), value)];
      } else {
        r := None;
      }
    }

    /** `createVar(name, d)`: createVar with the 1 x 1 matrix d. */
    method CreateScalar(name: string, d: real) returns (r: Option<nat>)
      requires Valid()
      modifies this, slots
      ensures Valid() && slots == old(slots)
      ensures Entries() == Created(old(Entries()), name, Scalar(d))
      ensures r == if old(size) < SizeDB then Some(old(size)) else None
      ensures old(AnsNamed()) ==> AnsNamed()
    {
      r := CreateVar(name, Scalar(d));
    }

    /** `createVar(name)`: createVar with the value 0. */
    method CreateZero(name: string) returns (r: Option<nat>)
      requires Valid()
      modifies this, slots
      ensures Valid() && slots == old(slots)
      ensures Entries() == Created(old(Entries()), name, Scalar(0.0))
      ensures r == if old(size) < SizeDB then Some(old(size)) else None
      ensures old(AnsNamed()) ==> AnsNamed()
    {
      r := CreateScalar(name, 0.0);
    }

    /** `*var = m` on the entry at index i: its value is replaced, its name kept. */
    method SetValue(i: nat, value: Matrix)
      requires Valid() && i < size
      modifies slots
      ensures Valid() && Entries() == Assigned(old(Entries()), i, value)
      ensures slots[..] == old(slots[..])[i := old(slots[i]).(value := value)]
      ensures old(AnsNamed()) ==> AnsNamed()
    {
      slots[i] := slots[i].(value := value);
    }

    /** `getAns()`: slot 0. */
    function Ans(): (r: Slot)
      reads this, slots
      requires Valid()
      ensures r == Entries()[0]
      ensures AnsNamed() ==> Find(Entries(), AnsName) == Some(0)
    {
      slots[0]
    }

    /** `at(i)`: the entry at index i when i is below the size, else None. */
    function At(i: int): (r: Option<Slot>)
      reads this, slots
      requires Valid()
      ensures r.Some? <==> 0 <= i < |Entries()|
      ensures r.Some? ==> r.value == Entries()[i]
    {
      if 0 <= i < size then Some(slots[i]) else None
    }

    /** `size()`: the number of entries in use. */
    function Size(): (n: nat)
      reads this, slots
      requires Valid()
      ensures n == |Entries()| && 1 <= n <= SizeDB
    {
      size
    }

    /** `dump` as evidently intended: `ans` is reset to 0, every other slot is cleared and the
        size goes back to 1. */
    method Dump()
      requires Valid()
      modifies this, slots
      ensures Valid() && slots == old(slots) && size == 1
      ensures Entries() == Dumped(old(Entries()))
      ensures slots[0] == old(slots[0]).(value := Scalar(0.0))
      ensures forall k :: 1 <= k < SizeDB ==> slots[k] == Empty
      ensures old(AnsNamed()) ==> AnsNamed()
    {
      slots[0] := slots[0].(value := Scalar(0.0));
      var i := 1;
      while i < SizeDB
        invariant 1 <= i <= SizeDB
        modifies slots
        invariant slots[0] == old(slots[0]).(value := Scalar(0.0))
        invariant forall k :: 1 <= k < i ==> slots[k] == Empty
      {
        slots[i] := Empty;
        i := i + 1;
      }
      size := 1;
    }

    /** `dump` as written: the clearing loop clears slot 0 SIZE_DB - 1 times and the other
        slots never, so the one entry left has lost its name and its value. */
    method DumpAsWritten()
      requires Valid()
      modifies this, slots
      ensures Valid() && slots == old(slots) && size == 1
      ensures Entries() == DumpedAsWritten(old(Entries()))
      ensures slots[..] == [Empty] + old(slots[1..])
    {
      slots[0] := slots[0].(value := Scalar(0.0));
      var i := 1;
      while i < SizeDB
        invariant 1 <= i <= SizeDB
        modifies slots
        invariant slots[0] == if i == 1 then old(slots[0]).(value := Scalar(0.0)) else Empty
        invariant slots[1..] == old(slots[1..])
      {
        slots[0] := Empty;
        i := i + 1;
      }
      size := 1;
      assert slots[..] == [slots[0]] + slots[1..];
    }
  }
}
