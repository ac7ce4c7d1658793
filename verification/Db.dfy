/** The database of db.c: ndbm as a finite map from key bytes to value bytes.
    Names and values are stored with their terminators. */
module Db {
  import opened CString
  import opened Wire

  const DUMP_BUFF := 1024

  /** The bytes of a C string, `strlen(s) + 1` of them. */
  function Terminated(s: string): string {
    s + [NUL]
  }

  /** The C string in the bytes of a stored key. */
  function Name(bytes: string): string {
    if bytes == "" then "" else bytes[..|bytes| - 1]
  }

  lemma NameOfTerminated(s: string)
    ensures Name(Terminated(s)) == s
  {
  }

  // ------------------------------------------------------------------ dump

  /** The keys in order, CRLF behind each. */
  function Dump(keys: seq<string>): string {
    if keys == [] then "" else keys[0] + CRLF + Dump(keys[1..])
  }

  function DumpSize(keys: seq<string>): nat {
    if keys == [] then 0 else |keys[0]| + 2 + DumpSize(keys[1..])
  }

  lemma {:induction false} DumpAppend(a: seq<string>, b: seq<string>)
    ensures Dump(a + b) == Dump(a) + Dump(b)
    ensures DumpSize(a + b) == DumpSize(a) + DumpSize(b)
  {
    if a == [] {
      assert a + b == b;
    } else {
      assert (a + b)[1..] == a[1..] + b;
      DumpAppend(a[1..], b);
    }
  }

  lemma {:induction false} DumpLength(keys: seq<string>)
    ensures |Dump(keys)| == DumpSize(keys)
  {
    if keys == [] {
    } else {
      DumpLength(keys[1..]);
    }
  }

  lemma {:induction false} DumpHasNoNul(keys: seq<string>)
    requires forall k | k in keys :: NUL !in k
    ensures NUL !in Dump(keys)
  {
    if keys == [] {
    } else {
      assert keys[0] in keys;
      DumpHasNoNul(keys[1..]);
    }
  }

  /** `order` visits each key once. */
  ghost predicate IsEnumeration(order: seq<string>, keys: set<string>) {
    && (forall k :: k in order <==> k in keys)
    && (forall i, j | 0 <= i < j < |order| :: order[i] != order[j])
  }

  lemma DumpSizeWithout(b: seq<string>, j: nat)
    requires j < |b|
    ensures DumpSize(b) == DumpSize(b[..j] + b[j + 1..]) + |b[j]| + 2
  {
    assert b == b[..j] + ([b[j]] + b[j + 1..]);
    DumpAppend(b[..j], [b[j]] + b[j + 1..]);
    DumpAppend(b[..j], b[j + 1..]);
    DumpAppend([b[j]], b[j + 1..]);
  }

  lemma FindKey(a: seq<string>, b: seq<string>, keys: set<string>) returns (j: nat)
    requires IsEnumeration(a, keys) && IsEnumeration(b, keys) && a != []
    ensures j < |b| && b[j] == a[0]
  {
    assert a[0] in a && a[0] in b;
    j :| 0 <= j < |b| && b[j] == a[0];
  }

  lemma FirstIsKey(b: seq<string>, keys: set<string>)
    requires IsEnumeration(b, keys)
    ensures b != [] ==> b[0] in keys
  {
    if b != [] {
      assert b[0] in b;
    }
  }

  lemma NoKeys(b: seq<string>, keys: set<string>)
    requires IsEnumeration([], keys) && IsEnumeration(b, keys)
    ensures b == []
  {
    FirstIsKey(b, keys);
  }

  /** The dump has one size, whatever order ndbm visits the keys in. */
  lemma {:induction false} DumpSizeIgnoresOrder(a: seq<string>, b: seq<string>, keys: set<string>)
    requires IsEnumeration(a, keys) && IsEnumeration(b, keys)
    ensures DumpSize(a) == DumpSize(b)
    decreases |a|
  {
    hide IsEnumeration;
    if a == [] {
      NoKeys(b, keys);
    } else {
      var j := FindKey(a, b, keys);
      DumpSizeWithout(b, j);
      WithoutFirst(a, keys);
      WithoutAt(b, j, keys);
      DumpSizeIgnoresOrder(a[1..], b[..j] + b[j + 1..], keys - {a[0]});
    }
  }

  lemma WithoutFirst(a: seq<string>, keys: set<string>)
    requires IsEnumeration(a, keys) && a != []
    ensures IsEnumeration(a[1..], keys - {a[0]})
  {
    forall k ensures k in a[1..] <==> k in keys - {a[0]} {
      if k in a[1..] {
        var i :| 0 <= i < |a| - 1 && a[1..][i] == k;
        assert a[i + 1] == k && k in a;
      }
    }
  }

  lemma WithoutAt(b: seq<string>, j: nat, keys: set<string>)
    requires IsEnumeration(b, keys) && j < |b|
    ensures IsEnumeration(b[..j] + b[j + 1..], keys - {b[j]})
  {
    var rest := b[..j] + b[j + 1..];
    assert forall i | 0 <= i < |rest| :: rest[i] == b[if i < j then i else i + 1];
    forall k ensures k in rest <==> k in keys - {b[j]} {
      if k in rest {
        var i :| 0 <= i < |rest| && rest[i] == k;
        assert b[if i < j then i else i + 1] == k && k in b;
      }
    }
  }

  lemma OneMoreKey(order: seq<string>, name: string, unseen: set<string>, keys: set<string>)
    requires unseen <= keys && name in unseen && IsEnumeration(order, keys - unseen)
    ensures IsEnumeration(order + [name], keys - (unseen - {name}))
  {
    assert forall k :: k in order + [name] <==> k in order || k == name;
    assert name !in order;
  }

  /** A visit of some of the keys is no larger than a complete one. */
  lemma {:induction false} VisitFits(order: seq<string>, unseen: set<string>, keys: set<string>)
    requires unseen <= keys && IsEnumeration(order, keys - unseen)
    requires forall o | IsEnumeration(o, keys) :: DumpSize(o) <= DUMP_BUFF
    ensures DumpSize(order) <= DUMP_BUFF
    decreases |unseen|
  {
    if unseen == {} {
      assert keys - unseen == keys;
    } else {
      var name :| name in unseen;
      OneMoreKey(order, name, unseen, keys);
      VisitFits(order + [name], unseen - {name}, keys);
      DumpAppend(order, [name]);
    }
  }

  /** One turn of the loop in `getAllData`. */
  lemma VisitOne(order: seq<string>, name: string, unseen: set<string>, keys: set<string>)
    requires unseen <= keys && name in unseen && IsEnumeration(order, keys - unseen)
    requires forall o | IsEnumeration(o, keys) :: DumpSize(o) <= DUMP_BUFF
    ensures IsEnumeration(order + [name], keys - (unseen - {name}))
    ensures Dump(order + [name]) == Dump(order) + name + CRLF
    ensures DumpSize(order + [name]) == DumpSize(order) + |name| + 2 <= DUMP_BUFF
  {
    OneMoreKey(order, name, unseen, keys);
    VisitFits(order + [name], unseen - {name}, keys);
    DumpAppend(order, [name]);
    assert Dump([name]) == name + CRLF;
  }

  lemma NothingVisited(keys: set<string>)
    ensures IsEnumeration([], keys - keys) && Dump([]) == "" && DumpSize([]) == 0
  {
  }

  // -------------------------------------------------------------- database

  /** What `dbm_fetch` returns: `Missing` has a null pointer and size 0. */
  datatype Datum = Missing | Bytes(bytes: string) {
    function DSize(): nat {
      if Missing? then 0 else |bytes|
    }
  }

  /** Two `dc_memcpy` calls and the steps of the write pointer. */
  method AppendLine(buffer: array<char>, value: nat, name: string) returns (next: nat)
    requires value + |name| + 2 <= buffer.Length
    modifies buffer
    ensures next == value + |name| + 2
    ensures buffer[..next] == old(buffer[..value]) + name + CRLF
    ensures forall i | next <= i < buffer.Length :: buffer[i] == old(buffer[i])
  {
    CopyInto(buffer, value, name);
    next := value + |name|;
    ghost var was := buffer[..];
    assert was[..next] == was[..value] + name;
    CopyInto(buffer, next, CRLF);
    next := next + 2;
    assert buffer[..next] == buffer[..next - 2] + buffer[next - 2..next];
  }

  class Database {
    var raw: map<string, string>
    ghost var contents: map<string, string>

    /** The stored bytes are exactly the terminated keys and values of `contents`. */
    ghost predicate Valid()
      reads this
    {
      && (forall k | k in contents :: NUL !in k && NUL !in contents[k]
           && Terminated(k) in raw && raw[Terminated(k)] == Terminated(contents[k]))
      && (forall d | d in raw :: Name(d) in contents && d == Terminated(Name(d)))
    }

    constructor ()
      ensures Valid() && contents == map[]
    {
      raw, contents := map[], map[];
    }

    /** `store_data` with DBM_REPLACE. */
    method Store(name: string, value: string)
      requires Valid() && NUL !in name && NUL !in value
      modifies this
      ensures Valid() && contents == old(contents)[name := value]
    {
      var key, valueToAdd := Terminated(name), Terminated(value);
      forall k | k in contents ensures Name(Terminated(k)) == k {
        NameOfTerminated(k);
      }
      NameOfTerminated(name);
      raw := raw[key := valueToAdd];
      contents := contents[name := value];
    }

    /** `fetch_data`. */
    method Fetch(name: string) returns (content: Datum)
      requires Valid() && NUL !in name
      ensures content == if name in contents then Bytes(Terminated(contents[name])) else Missing
    {
      var key := Terminated(name);
      NameOfTerminated(name);
      content := if key in raw then Bytes(raw[key]) else Missing;
    }

    /** `delete_data`: 0 if the key was there, negative otherwise. */
    method Delete(name: string) returns (retVal: int)
      requires Valid() && NUL !in name
      modifies this
      ensures Valid() && contents == old(contents) - {name}
      ensures retVal == (if name in old(contents) then 0 else -1)
    {
      var key := Terminated(name);
      NameOfTerminated(name);
      retVal := if key in raw then 0 else -1;
      forall k | k in contents ensures Name(Terminated(k)) == k {
        NameOfTerminated(k);
      }
      raw := raw - {key};
      contents := contents - {name};
    }

    /** The bytes ndbm has not yet visited are those of the unseen keys: visiting one
        leaves the others. */
    lemma VisitLeaves(left: set<string>, unseen: set<string>, key: string)
      requires Valid() && key in left && forall d :: d in left <==> d in raw && Name(d) in unseen
      ensures Name(key) in unseen && |key| > 0 && key[..|key| - 1] == Name(key)
      ensures forall d :: d in left - {key} <==> d in raw && Name(d) in unseen - {Name(key)}
    {
    }

    lemma RawKeys()
      requires Valid()
      ensures forall d :: d in raw.Keys <==> d in raw && Name(d) in contents
    {
    }

    lemma AllVisited(unseen: set<string>)
      requires Valid() && unseen <= contents.Keys && forall d | d in raw :: Name(d) !in unseen
      ensures unseen == {}
    {
      forall k | k in contents ensures k !in unseen {
        NameOfTerminated(k);
      }
    }

    /** `getAllData`: the keys ndbm has not yet visited shrink to nothing while the
        write pointer advances; `order` is the order of the visit. */
    method GetAllData(buffer: array<char>) returns (ghost order: seq<string>)
      requires Valid() && buffer.Length == 1024
      requires forall o | IsEnumeration(o, contents.Keys) :: DumpSize(o) <= 1024
      modifies buffer
      ensures IsEnumeration(order, contents.Keys) && DumpSize(order) <= 1024
      ensures buffer[..DumpSize(order)] == Dump(order)
      ensures forall i | DumpSize(order) <= i < buffer.Length :: buffer[i] == old(buffer[i])
    {
      hide IsEnumeration, Dump, DumpSize, Valid, Name;
      order := [];
      NothingVisited(contents.Keys);
      RawKeys();
      var value, left := 0, raw.Keys;
      ghost var unseen := contents.Keys;
      while left != {}
        invariant unseen <= contents.Keys
        invariant forall d :: d in left <==> d in raw && Name(d) in unseen
        invariant IsEnumeration(order, contents.Keys - unseen)
        invariant value == DumpSize(order) <= DUMP_BUFF
        invariant buffer[..value] == Dump(order)
        invariant forall i | value <= i < buffer.Length :: buffer[i] == old(buffer[i])
        decreases |left|
      {
        var key :| key in left;
        ghost var name := Name(key);
        VisitLeaves(left, unseen, key);
        VisitOne(order, name, unseen, contents.Keys);
        value := AppendLine(buffer, value, key[..|key| - 1]);
        order, left, unseen := order + [name], left - {key}, unseen - {name};
      }
      AllVisited(unseen);
      assert contents.Keys - unseen == contents.Keys;
    }
  }
}
