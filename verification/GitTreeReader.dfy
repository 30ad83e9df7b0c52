// The parser of Git tree objects in just-lock, read_git_tree (bin/jst-lock.py:590-629), and its
// agreement with the writers.
module GitTreeReader {
  import opened Wrappers
  import opened ByteOrder
  import opened GitTree

  // ---- Python's find and slices ----

  // s.find(c): the first position of c, or -1.
  function Find(s: string, c: char): (i: int)
    ensures -1 <= i < |s|
  {
    if s == [] then -1
    else if s[0] == c then 0
    else
      var i := Find(s[1..], c);
      if i == -1 then -1 else i + 1
  }

  lemma {:induction false} FindFirst(a: string, c: char, b: string)
    requires c !in a
    ensures Find(a + [c] + b, c) == |a|
  {
    var s := a + [c] + b;
    if a != [] {
      assert s[0] == a[0] && s[1..] == a[1..] + [c] + b;
      FindFirst(a[1..], c, b);
    }
  }

  // s[i:j]: a negative bound counts from the end, and bounds beyond the end are clipped.
  function Slice(s: string, i: nat, j: int): string {
    var from := if i < |s| then i else |s|;
    var stop := if j < 0 then j + |s| else j;
    var to := if stop < from then from else if stop < |s| then stop else |s|;
    s[from..to]
  }

  // ---- Reading ----

  // The next entry at curr: permission code, file name, raw id, and where the entry ends.
  function NextEntry(raw: string, curr: nat): (r: (string, string, string, nat))
    requires curr < |raw|
    ensures r.3 > curr
  {
    var permStep := Find(raw[curr..], ' ');
    var perm := Slice(raw, curr, curr + permStep);
    var i := curr + permStep + 1;
    var nameStep := Find(raw[i..], '\0');
    var name := Slice(raw, i, i + nameStep);
    var j := i + nameStep + 1;
    (perm, name, Slice(raw, j, j + SHA1_SIZE_BYTES), j + SHA1_SIZE_BYTES)
  }

  function ReadFrom(raw: string, curr: nat, entries: map<string, Leaf>): Option<map<string, Leaf>>
    requires IsBytes(raw)
    decreases |raw| - curr
  {
    if curr >= |raw| then Some(entries)
    else
      var (perm, name, id, end) := NextEntry(raw, curr);
      if KindOf(perm).None? then None
      else ReadFrom(raw, end, entries[name := Leaf(Hex(id), KindOf(perm).value)])
  }

  lemma ReadFromNext(raw: string, curr: nat, perm: string, name: string, id: string, end: nat, read: map<string, Leaf>)
    requires IsBytes(raw) && IsBytes(id) && curr < |raw| && NextEntry(raw, curr) == (perm, name, id, end)
    ensures KindOf(perm).None? ==> ReadFrom(raw, curr, read) == None
    ensures KindOf(perm).Some? ==>
              ReadFrom(raw, curr, read) == ReadFrom(raw, end, read[name := Leaf(Hex(id), KindOf(perm).value)])
  {
  }

  // The steps of the loop body of read_git_tree.
  method ReadEntry(raw: string, start: nat) returns (perm: string, name: string, id: string, end: nat)
    requires IsBytes(raw) && start < |raw|
    ensures (perm, name, id, end) == NextEntry(raw, start) && IsBytes(id)
  {
    var curr := start;
    var permStep := Find(raw[curr..], ' ');
    perm := Slice(raw, curr, curr + permStep);
    curr := curr + permStep + 1;
    var nameStep := Find(raw[curr..], '\0');
    name := Slice(raw, curr, curr + nameStep);
    curr := curr + nameStep + 1;
    id := Slice(raw, curr, curr + SHA1_SIZE_BYTES);
    end := curr + SHA1_SIZE_BYTES;
  }

  // read_git_tree, given the content of the object; None if a permission code is unknown. Of a tree that
  // was printed, the result is the listing.
  method ReadGitTree(raw: string) returns (entries: Option<map<string, Leaf>>)
    requires IsBytes(raw)
    ensures entries == ReadFrom(raw, 0, map[])
    ensures forall m: map<string, Leaf> | IsListing(m) && raw == Printed(m) :: entries == Some(Unkeyed(m))
  {
    forall m: map<string, Leaf> | IsListing(m) && raw == Printed(m)
        ensures ReadFrom(raw, 0, map[]) == Some(Unkeyed(m))
    {
      ReadPrinted(m);
    }
    hide IsListing, Printed, Unkeyed;
    var read: map<string, Leaf> := map[];
    var curr := 0;
    while curr < |raw|
      invariant ReadFrom(raw, curr, read) == ReadFrom(raw, 0, map[])
      decreases |raw| - curr
    {
      var perm, name, id, end := ReadEntry(raw, curr);
      ReadFromNext(raw, curr, perm, name, id, end, read);
      if KindOf(perm).None? {
        return None;
      }
      read, curr := read[name := Leaf(Hex(id), KindOf(perm).value)], end;
    }
    entries := Some(read);
  }

  // ---- Reading what was written ----

  predicate IsRawId(id: string) {
    |id| == SHA1_SIZE_BYTES && IsBytes(id)
  }

  function NameAt(entries: map<string, Leaf>, k: string): string
    requires k in entries
  {
    Filename(k, entries[k].kind)
  }

  // What the reader makes of an entry.
  function HexLeaf(leaf: Leaf): Leaf
    requires IsRawId(leaf.id)
  {
    Leaf(Hex(leaf.id), leaf.kind)
  }

  ghost predicate IsListed(entries: map<string, Leaf>, k: string)
    requires k in entries
  {
    var name := NameAt(entries, k);
    IsRawId(entries[k].id) && IsBytes(k) && '\0' !in name && '/' !in name && k == SortName(name, entries[k].kind)
  }

  // What a directory can hold: names without NUL and slash, each one once.
  ghost predicate IsListing(entries: map<string, Leaf>) {
    AllListed(entries) && NamesUnique(entries)
  }

  ghost predicate AllListed(entries: map<string, Leaf>) {
    forall k | k in entries :: IsListed(entries, k)
  }

  ghost predicate NamesUnique(entries: map<string, Leaf>) {
    forall k, k' | k in entries && k' in entries :: NameAt(entries, k) == NameAt(entries, k') ==> k == k'
  }

  // The entries by file name, as the reader returns them, with the ids in hex.
  ghost function Unkeyed(entries: map<string, Leaf>): map<string, Leaf>
    requires IsListing(entries)
  {
    map k | k in entries && IsListed(entries, k) :: NameAt(entries, k) := HexLeaf(entries[k])
  }

  // A part of s that begins at i, and what comes after it.
  ghost predicate Begins(s: string, i: nat, part: string, rest: string) {
    i <= |s| && s[i..] == part + rest
  }

  lemma SliceBegins(s: string, i: nat, part: string, rest: string)
    requires Begins(s, i, part, rest)
    ensures Slice(s, i, i + |part|) == part && i + |part| <= |s| && s[i + |part|..] == rest
  {
    assert s[i + |part|..] == s[i..][|part|..];
    assert s[i..i + |part|] == s[i..][..|part|];
  }

  // A field that ends with c, which does not occur in it.
  lemma ReadField(s: string, i: nat, part: string, c: char, rest: string)
    requires Begins(s, i, part, [c] + rest) && c !in part
    ensures Find(s[i..], c) == |part| && Slice(s, i, i + |part|) == part
    ensures i + |part| + 1 <= |s| && s[i + |part| + 1..] == rest
  {
    assert s[i..] == part + [c] + rest;
    FindFirst(part, c, rest);
    SliceBegins(s, i, part, [c] + rest);
    assert s[i + |part| + 1..] == s[i + |part|..][1..];
  }

  lemma ReadLine(raw: string, curr: nat, key: string, leaf: Leaf, after: string)
    requires Begins(raw, curr, Line(key, leaf), after)
    requires IsRawId(leaf.id) && '\0' !in Filename(key, leaf.kind)
    ensures curr < |raw| && curr + |Line(key, leaf)| <= |raw| && raw[curr + |Line(key, leaf)|..] == after
    ensures NextEntry(raw, curr) == (Perm(leaf.kind), Filename(key, leaf.kind), leaf.id, curr + |Line(key, leaf)|)
  {
    var perm, name := Perm(leaf.kind), Filename(key, leaf.kind);
    LineParts(key, leaf, after);
    ReadField(raw, curr, perm, ' ', name + (['\0'] + (leaf.id + after)));
    ReadField(raw, curr + |perm| + 1, name, '\0', leaf.id + after);
    SliceBegins(raw, curr + |perm| + 1 + |name| + 1, leaf.id, after);
  }

  lemma LineParts(key: string, leaf: Leaf, after: string)
    ensures Line(key, leaf) + after == Perm(leaf.kind)
        + ([' '] + (Filename(key, leaf.kind) + (['\0'] + (leaf.id + after))))
    ensures |Line(key, leaf)| == |Perm(leaf.kind)| + 1 + |Filename(key, leaf.kind)| + 1 + |leaf.id|
  {
  }

  ghost predicate ReadUpTo(entries: map<string, Leaf>, keys: seq<string>, i: nat, read: map<string, Leaf>)
    requires AllListed(entries) && i <= |keys| && forall k | k in keys :: k in entries
  {
    && (forall j | 0 <= j < i :: NameAt(entries, keys[j]) in read
          && read[NameAt(entries, keys[j])] == HexLeaf(entries[keys[j]]))
    && (forall name | name in read :: exists j :: 0 <= j < i && name == NameAt(entries, keys[j]))
  }

  lemma ReadFromStep(raw: string, curr: nat, name: string, leaf: Leaf, end: nat, read: map<string, Leaf>)
    requires IsBytes(raw) && curr < |raw| && IsRawId(leaf.id)
    requires NextEntry(raw, curr) == (Perm(leaf.kind), name, leaf.id, end)
    ensures ReadFrom(raw, curr, read) == ReadFrom(raw, end, read[name := HexLeaf(leaf)])
  {
    PermRoundTrip(leaf.kind);
  }

  lemma ReadNext(raw: string, curr: nat, entries: map<string, Leaf>, keys: seq<string>, i: nat, read: map<string, Leaf>)
    returns (next: nat)
    requires IsBytes(raw) && AllListed(entries) && i < |keys| && forall k | k in keys :: k in entries
    requires curr <= |raw| && raw[curr..] == Lines(entries, keys[i..])
    ensures next <= |raw| && raw[next..] == Lines(entries, keys[i + 1..])
    ensures ReadFrom(raw, curr, read) == ReadFrom(raw, next,
        read[NameAt(entries, keys[i]) := HexLeaf(entries[keys[i]])])
  {
    var key, leaf := keys[i], entries[keys[i]];
    next := curr + |Line(key, leaf)|;
    assert keys[i..] == [key] + keys[i + 1..] && IsListed(entries, key);
    var after := Lines(entries, keys[i + 1..]);
    assert Lines(entries, keys[i..]) == Line(key, leaf) + after;
    ReadLine(raw, curr, key, leaf, after);
    ReadFromStep(raw, curr, NameAt(entries, key), leaf, next, read);
  }

  lemma {:induction false} ReadLines(raw: string, curr: nat, entries: map<string, Leaf>, keys: seq<string>, i: nat,
                                     read: map<string, Leaf>)
    requires IsBytes(raw) && IsListing(entries) && i <= |keys| && forall k :: k in keys <==> k in entries
    requires curr <= |raw| && raw[curr..] == Lines(entries, keys[i..])
    requires ReadUpTo(entries, keys, i, read)
    ensures ReadFrom(raw, curr, read) == Some(Unkeyed(entries))
    decreases |keys| - i
  {
    if i == |keys| {
      AllRead(entries, keys, read);
    } else {
      var next := ReadNext(raw, curr, entries, keys, i, read);
      ReadMore(entries, keys, i, read);
      ReadLines(raw, next, entries, keys, i + 1, read[NameAt(entries, keys[i]) := HexLeaf(entries[keys[i]])]);
    }
  }

  lemma PermRoundTrip(kind: ObjectType)
    ensures KindOf(Perm(kind)) == Some(kind)
  {
  }

  lemma ReadMore(entries: map<string, Leaf>, keys: seq<string>, i: nat, read: map<string, Leaf>)
    requires AllListed(entries) && i < |keys| && forall k | k in keys :: k in entries
    requires forall j | 0 <= j < i && NameAt(entries, keys[j]) == NameAt(entries, keys[i]) :: keys[j] == keys[i]
    requires ReadUpTo(entries, keys, i, read)
    ensures ReadUpTo(entries, keys, i + 1, read[NameAt(entries, keys[i]) := HexLeaf(entries[keys[i]])])
  {
  }

  lemma AllRead(entries: map<string, Leaf>, keys: seq<string>, read: map<string, Leaf>)
    requires IsListing(entries) && forall k :: k in keys <==> k in entries
    requires ReadUpTo(entries, keys, |keys|, read)
    ensures read == Unkeyed(entries)
  {
    forall k | k in entries ensures NameAt(entries, k) in read && read[NameAt(entries, k)] == HexLeaf(entries[k]) {
      var j :| 0 <= j < |keys| && keys[j] == k;
    }
    forall name | name in read ensures name in Unkeyed(entries) {
      var j :| 0 <= j < |keys| && name == NameAt(entries, keys[j]);
      assert keys[j] in entries && IsListed(entries, keys[j]);
    }
  }

  lemma LineIsBytes(key: string, leaf: Leaf)
    requires IsBytes(key) && IsBytes(leaf.id)
    ensures IsBytes(Line(key, leaf))
  {
    var perm, name := Perm(leaf.kind), Filename(key, leaf.kind);
    assert IsBytes(perm) && IsBytes(name) && IsBytes(" ") && IsBytes("\0");
    BytesConcat(perm, " ");
    BytesConcat(perm + " ", name);
    BytesConcat(perm + " " + name, "\0");
    BytesConcat(perm + " " + name + "\0", leaf.id);
  }

  lemma BytesConcat(a: string, b: string)
    requires IsBytes(a) && IsBytes(b)
    ensures IsBytes(a + b)
  {
  }

  lemma {:induction false} LinesAreBytes(entries: map<string, Leaf>, keys: seq<string>)
    requires AllListed(entries) && forall k | k in keys :: k in entries
    ensures IsBytes(Lines(entries, keys))
  {
    if keys != [] {
      assert keys[0] in entries;
      assert forall k | k in keys[1..] :: k in keys;
      LinesAreBytes(entries, keys[1..]);
      LineIsBytes(keys[0], entries[keys[0]]);
      BytesConcat(Line(keys[0], entries[keys[0]]), Lines(entries, keys[1..]));
    }
  }

  // What was printed is read back exactly: every name with its id and type, and nothing else.
  lemma ReadPrinted(entries: map<string, Leaf>)
    requires IsListing(entries)
    ensures IsBytes(Printed(entries)) && ReadFrom(Printed(entries), 0, map[]) == Some(Unkeyed(entries))
  {
    var keys := Sorted(entries.Keys);
    LinesAreBytes(entries, keys);
    assert keys[0..] == keys && Printed(entries)[0..] == Printed(entries);
    ReadLines(Printed(entries), 0, entries, keys, 0, map[]);
  }

  // So the bytes determine the listing.
  lemma PrintedInjective(a: map<string, Leaf>, b: map<string, Leaf>)
    requires IsListing(a) && IsListing(b) && Printed(a) == Printed(b)
    ensures a == b
  {
    hide IsListing, Printed, Unkeyed;
    SameUnkeyed(a, b);
    Counterparts(a, b);
    Counterparts(b, a);
  }

  lemma SameUnkeyed(a: map<string, Leaf>, b: map<string, Leaf>)
    requires IsListing(a) && IsListing(b) && Printed(a) == Printed(b)
    ensures Unkeyed(a) == Unkeyed(b)
  {
    hide IsListing, Unkeyed;
    ReadPrinted(a);
    ReadPrinted(b);
  }

  lemma Counterparts(a: map<string, Leaf>, b: map<string, Leaf>)
    requires IsListing(a) && IsListing(b) && Unkeyed(a) == Unkeyed(b)
    ensures forall k | k in a :: k in b && b[k] == a[k]
  {
    forall k | k in a ensures k in b && b[k] == a[k] {
      Counterpart(a, b, k);
    }
  }

  lemma UnkeyedAt(a: map<string, Leaf>, k: string)
    requires IsListing(a) && k in a
    ensures NameAt(a, k) in Unkeyed(a) && Unkeyed(a)[NameAt(a, k)] == HexLeaf(a[k])
  {
    assert IsListed(a, k);
  }

  lemma Counterpart(a: map<string, Leaf>, b: map<string, Leaf>, k: string)
    requires IsListing(a) && IsListing(b) && Unkeyed(a) == Unkeyed(b) && k in a
    ensures k in b && b[k] == a[k]
  {
    UnkeyedAt(a, k);
    var k' :| k' in b && NameAt(b, k') == NameAt(a, k);
    UnkeyedAt(b, k');
    HexInjective(a[k].id, b[k'].id);
    assert IsListed(a, k) && IsListed(b, k');
  }
}
