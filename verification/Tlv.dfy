/** The configuration area: entries of a type, a length and a body, nested two deep, and the search over them. */
module Tlv {
  import opened Bytes
  import opened Words
  import opened Flash

  const CONFIG_ADDR_START: nat := 0xbd000
  const HEAD_LEN: nat := 8

  datatype Entry = Entry(kind: nat, body: seq<byte>)

  ghost predicate WellFormed(entries: seq<Entry>) {
    forall i :: 0 <= i < |entries| ==> entries[i].kind < U32 && |entries[i].body| < U32
  }

  /** An entry as it is stored: head_param_t and then the body. */
  function Stored(e: Entry): (s: seq<byte>)
    requires e.kind < U32 && |e.body| < U32
    ensures |s| == HEAD_LEN + |e.body|
  {
    Le32(e.kind) + Le32(|e.body|) + e.body
  }

  function Parts(entries: seq<Entry>): (parts: seq<seq<byte>>)
    requires WellFormed(entries)
    ensures |parts| == |entries| && forall i :: 0 <= i < |parts| ==> parts[i] == Stored(entries[i])
  {
    seq(|entries|, i requires 0 <= i < |entries| => Stored(entries[i]))
  }

  /** The entries of a container, one after the other. */
  function Serial(entries: seq<Entry>): (s: seq<byte>)
    requires WellFormed(entries)
  {
    Flatten(Parts(entries))
  }

  /** The container whose head is at `start` holds these entries. */
  ghost predicate Holds(cells: seq<byte>, start: nat, entries: seq<Entry>) {
    && WellFormed(entries) && start + HEAD_LEN + |Serial(entries)| <= |cells|
    && U32At(cells, start + 4) == |Serial(entries)|
    && cells[start + HEAD_LEN..start + HEAD_LEN + |Serial(entries)|] == Serial(entries)
  }

  /** Where entry i of the container is. */
  ghost function EntryAt(start: nat, entries: seq<Entry>, i: nat): nat
    requires WellFormed(entries) && i <= |entries|
  {
    start + HEAD_LEN + |Flatten(Parts(entries)[..i])|
  }

  lemma Subslice(s: seq<byte>, base: nat, len: nat, a: nat, n: nat)
    requires a + n <= len && base + len <= |s|
    ensures s[base + a..base + a + n] == s[base..base + len][a..a + n]
  {
    var t := s[base..base + len][a..a + n];
    assert forall i :: 0 <= i < n ==> t[i] == s[base + a + i];
  }

  lemma PartIsThere(cells: seq<byte>, base: nat, parts: seq<seq<byte>>, i: nat)
    requires base + |Flatten(parts)| <= |cells| && cells[base..base + |Flatten(parts)|] == Flatten(parts) && i < |parts|
    ensures var (a, n) := (|Flatten(parts[..i])|, |parts[i]|);
      && |Flatten(parts[..i + 1])| == a + n <= |Flatten(parts)| && cells[base + a..base + a + n] == parts[i]
  {
    FlattenAt(parts, i);
    Subslice(cells, base, |Flatten(parts)|, |Flatten(parts[..i])|, |parts[i]|);
  }

  /** Entry i is stored where EntryAt says, head and body, and the next one follows it. */
  lemma EntryIsThere(cells: seq<byte>, start: nat, entries: seq<Entry>, i: nat)
    requires Holds(cells, start, entries) && i < |entries|
    ensures var (a, e) := (EntryAt(start, entries, i), entries[i]);
      && EntryAt(start, entries, i + 1) == a + HEAD_LEN + |e.body| <= start + HEAD_LEN + |Serial(entries)| <= |cells|
      && U32At(cells, a) == e.kind && U32At(cells, a + 4) == |e.body|
      && cells[a + HEAD_LEN..a + HEAD_LEN + |e.body|] == e.body
  {
    var a := EntryAt(start, entries, i);
    PartIsThere(cells, start + HEAD_LEN, Parts(entries), i);
    assert |Parts(entries)[i]| == HEAD_LEN + |entries[i].body|;
    HeadReads(cells, a, entries[i]);
  }

  lemma HeadReads(cells: seq<byte>, a: nat, e: Entry)
    requires e.kind < U32 && |e.body| < U32 && a + HEAD_LEN + |e.body| <= |cells|
    requires cells[a..a + HEAD_LEN + |e.body|] == Stored(e)
    ensures U32At(cells, a) == e.kind && U32At(cells, a + 4) == |e.body|
    ensures cells[a + HEAD_LEN..a + HEAD_LEN + |e.body|] == e.body
  {
    var s := cells[a..a + HEAD_LEN + |e.body|];
    assert s[..4] == Le32(e.kind) && s[4..8] == Le32(|e.body|) && s[8..] == e.body;
    WordReads(s, 0, e.kind);
    WordReads(s, 4, |e.body|);
  }

  lemma EntryInside(cells: seq<byte>, start: nat, entries: seq<Entry>, i: nat)
    requires Holds(cells, start, entries) && i <= |entries|
    ensures var end := start + HEAD_LEN + |Serial(entries)|;
      EntryAt(start, entries, i) <= end && (EntryAt(start, entries, i) < end <==> i < |entries|)
  {
    if i < |entries| {
      EntryIsThere(cells, start, entries, i);
    } else {
      assert Parts(entries)[..i] == Parts(entries);
    }
  }

  /** i is the first entry of the type, or there is none and i is their number. */
  ghost predicate IsFirst(entries: seq<Entry>, kind: nat, i: nat) {
    && i <= |entries| && (forall j :: 0 <= j < i ==> entries[j].kind != kind)
    && (i < |entries| ==> entries[i].kind == kind)
  }

  /** A head_param_t read from flash. */
  method ReadHead(flash: FlashDriver, addr: nat) returns (kind: nat, len: nat)
    requires flash.Valid() && addr + HEAD_LEN <= ADDRESS_SPACE
    ensures kind == U32At(flash.cells, addr) && len == U32At(flash.cells, addr + 4)
  {
    var head := new byte[HEAD_LEN];
    flash.ReadData(head, addr, HEAD_LEN);
    var s := head[..HEAD_LEN];
    assert forall j :: 0 <= j < HEAD_LEN ==> s[j] == flash.cells[addr..addr + HEAD_LEN][j];
    kind, len := U32At(s, 0), U32At(s, 4);
  }

  /** search_by_type: the address of the first entry of the type, or 0 exactly if there is none. */
  method SearchByType(flash: FlashDriver, kind: nat, start: nat, ghost entries: seq<Entry>)
    returns (addr: nat, ghost i: nat)
    requires flash.Valid() && Holds(flash.cells, start, entries)
    ensures IsFirst(entries, kind, i)
    ensures addr == if i < |entries| then EntryAt(start, entries, i) else 0
  {
    var headKind, len := ReadHead(flash, start);
    addr, i := start + HEAD_LEN, 0;
    var endAddr := addr + len;
    EntryInside(flash.cells, start, entries, 0);
    while addr < endAddr
      invariant i <= |entries| && addr == EntryAt(start, entries, i) <= endAddr && (addr < endAddr <==> i < |entries|)
      invariant forall j :: 0 <= j < i ==> entries[j].kind != kind
      decreases endAddr - addr
    {
      EntryIsThere(flash.cells, start, entries, i);
      headKind, len := ReadHead(flash, addr);
      if kind == headKind {
        break;
      }
      addr, i := addr + HEAD_LEN + len, i + 1;
      EntryInside(flash.cells, start, entries, i);
    }
    if addr >= endAddr {
      addr := 0;
    }
  }

  // ----- the two levels -----

  /** A class of parameters. */
  datatype Group = Group(kind: nat, fields: seq<Entry>)

  ghost predicate WellFormedTree(tree: seq<Group>) {
    forall i :: 0 <= i < |tree| ==> tree[i].kind < U32 && WellFormed(tree[i].fields) && |Serial(tree[i].fields)| < U32
  }

  /** The encoder: every class is an entry whose body is a container of its fields. */
  ghost function Encode(tree: seq<Group>): (entries: seq<Entry>)
    requires WellFormedTree(tree)
    ensures |entries| == |tree| && WellFormed(entries)
    ensures forall i :: 0 <= i < |entries| ==> entries[i] == Entry(tree[i].kind, Serial(tree[i].fields))
  {
    seq(|tree|, i requires 0 <= i < |tree| => Entry(tree[i].kind, Serial(tree[i].fields)))
  }

  /** The body of the first entry of a type. */
  function Find(entries: seq<Entry>, kind: nat): Option<seq<byte>> {
    if entries == [] then None
    else if entries[0].kind == kind then Some(entries[0].body)
    else Find(entries[1..], kind)
  }

  /** A parameter of the tree: the field in the first class of the type. */
  function Lookup(tree: seq<Group>, group: nat, field: nat): Option<seq<byte>> {
    if tree == [] then None
    else if tree[0].kind == group then Find(tree[0].fields, field)
    else Lookup(tree[1..], group, field)
  }

  lemma {:induction false} FindFirst(entries: seq<Entry>, kind: nat, i: nat)
    requires IsFirst(entries, kind, i)
    ensures Find(entries, kind) == if i < |entries| then Some(entries[i].body) else None
  {
    if i > 0 {
      FindFirst(entries[1..], kind, i - 1);
    }
  }

  lemma {:induction false} LookupFirst(tree: seq<Group>, group: nat, field: nat, i: nat)
    requires WellFormedTree(tree) && IsFirst(Encode(tree), group, i)
    ensures Lookup(tree, group, field) == if i < |tree| then Find(tree[i].fields, field) else None
  {
    if i > 0 {
      assert IsFirst(Encode(tree[1..]), group, i - 1) by {
        assert Encode(tree[1..]) == Encode(tree)[1..];
      }
      LookupFirst(tree[1..], group, field, i - 1);
    }
  }

  /** An entry whose body is a serialized container can be searched itself. */
  lemma EntryHolds(cells: seq<byte>, start: nat, entries: seq<Entry>, i: nat, fields: seq<Entry>)
    requires Holds(cells, start, entries) && i < |entries| && WellFormed(fields) && entries[i].body == Serial(fields)
    ensures Holds(cells, EntryAt(start, entries, i), fields)
  {
    EntryIsThere(cells, start, entries, i);
  }

  /** The lookup of app_drone: the class in the configuration area, then the field in the class, then its bytes. */
  method GetParameter(flash: FlashDriver, group: nat, field: nat, ghost tree: seq<Group>)
    returns (value: Option<seq<byte>>)
    requires flash.Valid() && WellFormedTree(tree) && Holds(flash.cells, CONFIG_ADDR_START, Encode(tree))
    ensures value == Lookup(tree, group, field)
  {
    var addrStart, i := SearchByType(flash, group, CONFIG_ADDR_START, Encode(tree));
    LookupFirst(tree, group, field, i);
    if addrStart == 0 {
      return None;
    }
    ghost var fields := tree[i].fields;
    EntryHolds(flash.cells, CONFIG_ADDR_START, Encode(tree), i, fields);
    var addr, j := SearchByType(flash, field, addrStart, fields);
    FindFirst(fields, field, j);
    if addr == 0 {
      return None;
    }
    var body := ReadBody(flash, addr, addrStart, fields, j);
    value := Some(body);
  }

  /** The body of a found entry. */
  method ReadBody(flash: FlashDriver, addr: nat, ghost start: nat, ghost entries: seq<Entry>, ghost i: nat)
    returns (body: seq<byte>)
    requires flash.Valid() && Holds(flash.cells, start, entries) && i < |entries| && addr == EntryAt(start, entries, i)
    ensures body == entries[i].body
  {
    EntryIsThere(flash.cells, start, entries, i);
    var kind, len := ReadHead(flash, addr);
    var buffer := new byte[len];
    flash.ReadData(buffer, addr + HEAD_LEN, len);
    body := buffer[..len];
  }
}
