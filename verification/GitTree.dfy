// Git tree objects: printed by GitRepo::CreateTree (src/buildtool/file_system/git_repo.cpp:1961-2017)
// and by write_tree_to_repo (bin/jst-lock.py:426-439), parsed by read_git_tree
// (bin/jst-lock.py:590-629). Strings are byte strings; a raw id has 20 bytes.
module GitTree {
  import opened Wrappers
  import opened ByteOrder
  import opened Numbers

  const SHA1_SIZE_BYTES := 20

  datatype ObjectType = File | Executable | Tree | Symlink

  datatype TreeEntry = TreeEntry(name: string, kind: ObjectType)

  datatype Leaf = Leaf(id: string, kind: ObjectType)

  // tree_entries_t: for each raw id, the entries with that id.
  type TreeEntries = map<string, seq<TreeEntry>>

  function Perm(kind: ObjectType): string {
    match kind
    case File => "100644"
    case Executable => "100755"
    case Tree => "40000"
    case Symlink => "120000"
  }

  // git_to_type; None for an unknown permission code.
  function KindOf(perm: string): Option<ObjectType> {
    if perm == "40000" then Some(Tree)
    else if perm == "120000" then Some(Symlink)
    else if perm == "100755" then Some(Executable)
    else if perm == "100644" then Some(File)
    else None
  }

  // The file mode that an entry of the kind has: the bits for the type, and the permissions.
  ghost function FileMode(kind: ObjectType): nat {
    match kind
    case File => 0x8000 + 6 * 64 + 4 * 8 + 4
    case Executable => 0x8000 + 7 * 64 + 5 * 8 + 5
    case Tree => 0x4000
    case Symlink => 0xA000
  }

  ghost predicate IsOctal(s: string) {
    forall i | 0 <= i < |s| :: '0' <= s[i] <= '7'
  }

  ghost function Octal(s: string): nat
    requires IsOctal(s)
  {
    if s == [] then 0 else 8 * Octal(s[..|s| - 1]) + (s[|s| - 1] as nat - '0' as nat)
  }

  lemma OctalOfFive(s: string)
    requires |s| == 5 && IsOctal(s)
    ensures Octal(s) == 4096 * Digit(s[0]) + 512 * Digit(s[1]) + 64 * Digit(s[2]) + 8 * Digit(s[3]) + Digit(s[4])
  {
    var s1, s2, s3, s4 := s[..1], s[..2], s[..3], s[..4];
    assert s1[..0] == [] && s2[..1] == s1 && s3[..2] == s2 && s4[..3] == s3;
    assert Octal(s1) == Digit(s[0]) && Octal(s2) == 8 * Octal(s1) + Digit(s[1]);
    assert Octal(s3) == 8 * Octal(s2) + Digit(s[2]) && Octal(s4) == 8 * Octal(s3) + Digit(s[3]);
  }

  ghost function Digit(c: char): int {
    c as int - '0' as int
  }

  // The permission code is the file mode in octal, and the kind is read from it and from no other code.
  lemma PermIsFileMode(kind: ObjectType, perm: string)
    ensures IsOctal(Perm(kind)) && Octal(Perm(kind)) == FileMode(kind) && Perm(kind)[0] != '0'
    ensures KindOf(perm) == Some(kind) <==> perm == Perm(kind)
  {
    var p := Perm(kind);
    if kind == Tree {
      OctalOfFive(p);
    } else {
      OctalOfFive(p[..5]);
    }
  }

  // ---- Hexadecimal ids ----

  predicate IsBytes(s: string) {
    forall i | 0 <= i < |s| :: s[i] as int < 256
  }

  function Hex(s: string): string
    requires IsBytes(s)
  {
    if s == [] then []
    else [HexDigit(s[0] as nat / 16), HexDigit(s[0] as nat % 16)] + Hex(s[1..])
  }

  // FromHexString: two characters at a time, each pair read as a number and truncated to a byte; a last
  // single character is read as well. None if there is no number.
  function FromHex(s: string): Option<string> {
    if s == [] then Some([])
    else
      var k := if |s| == 1 then 1 else 2;
      var n := StoulHex(s[..k]);
      var rest := FromHex(s[k..]);
      if n.None? || rest.None? then None else Some([(n.value % 256) as char] + rest.value)
  }

  lemma HexByte(n: nat)
    requires n < 256
    ensures StoulHex([HexDigit(n / 16), HexDigit(n % 16)]) == Some(n)
  {
    var s := [HexDigit(n / 16), HexDigit(n % 16)];
    assert FromDigit(s[0]) == Some(n / 16) && FromDigit(s[1]) == Some(n % 16);
    assert HexFrom(s[1..], n / 16) == HexFrom([], 16 * (n / 16) + n % 16);
  }

  lemma {:induction false} HexRoundTrip(s: string)
    requires IsBytes(s)
    ensures FromHex(Hex(s)) == Some(s)
  {
    if s != [] {
      HexRoundTrip(s[1..]);
      HexByte(s[0] as nat);
      assert Hex(s)[2..] == Hex(s[1..]) && Hex(s)[..2] == [HexDigit(s[0] as nat / 16), HexDigit(s[0] as nat % 16)];
      assert s == [s[0]] + s[1..];
    }
  }

  lemma HexInjective(s: string, t: string)
    requires IsBytes(s) && IsBytes(t) && Hex(s) == Hex(t)
    ensures s == t
  {
    HexRoundTrip(s);
    HexRoundTrip(t);
  }

  // ---- The format ----

  // Trees are sorted as if their names had a trailing slash.
  function SortName(name: string, kind: ObjectType): string {
    if kind == Tree then name + "/" else name
  }

  // The name without that slash.
  function Filename(key: string, kind: ObjectType): string {
    if kind == Tree && key != "" then key[..|key| - 1] else key
  }

  function Line(key: string, leaf: Leaf): string {
    Perm(leaf.kind) + " " + Filename(key, leaf.kind) + "\0" + leaf.id
  }

  function Lines(entries: map<string, Leaf>, keys: seq<string>): string
    requires forall k | k in keys :: k in entries
  {
    if keys == [] then ""
    else
      assert forall k | k in keys[1..] :: k in keys;
      Line(keys[0], entries[keys[0]]) + Lines(entries, keys[1..])
  }

  // The tree object with the given entries, by the names that they are sorted by.
  function Printed(entries: map<string, Leaf>): string {
    Lines(entries, Sorted(entries.Keys))
  }

  lemma {:induction false} LinesAppend(entries: map<string, Leaf>, keys: seq<string>, key: string)
    requires (forall k | k in keys :: k in entries) && key in entries
    ensures Lines(entries, keys + [key]) == Lines(entries, keys) + Line(key, entries[key])
  {
    var last := Line(key, entries[key]);
    if keys == [] {
      LinesFirst(entries, key, []);
    } else {
      assert forall k | k in keys[1..] :: k in keys;
      var first := Line(keys[0], entries[keys[0]]);
      LinesAppend(entries, keys[1..], key);
      assert keys + [key] == [keys[0]] + (keys[1..] + [key]) && keys == [keys[0]] + keys[1..];
      LinesFirst(entries, keys[0], keys[1..] + [key]);
      LinesFirst(entries, keys[0], keys[1..]);
      ConcatAssociative(first, Lines(entries, keys[1..]), last);
    }
  }

  lemma LinesFirst(entries: map<string, Leaf>, key: string, keys: seq<string>)
    requires key in entries && forall k | k in keys :: k in entries
    ensures Lines(entries, [key] + keys) == Line(key, entries[key]) + Lines(entries, keys)
  {
    assert ([key] + keys)[1..] == keys;
  }

  lemma ConcatAssociative(a: string, b: string, c: string)
    ensures a + (b + c) == a + b + c
  {
  }

  lemma LinesStep(entries: map<string, Leaf>, keys: seq<string>, i: nat)
    requires (forall k | k in keys :: k in entries) && i < |keys|
    ensures Lines(entries, keys[..i + 1]) == Lines(entries, keys[..i]) + Line(keys[i], entries[keys[i]])
  {
    assert keys[..i + 1] == keys[..i] + [keys[i]];
    LinesAppend(entries, keys[..i], keys[i]);
  }

  // ---- The writer of the build tool ----

  predicate HasEntry(entries: TreeEntries, id: string, entry: TreeEntry) {
    id in entries && entry in entries[id]
  }

  predicate Stands(entries: TreeEntries, entry: TreeEntry, k: string, leaf: Leaf) {
    SortName(entry.name, entry.kind) == k && entry.kind == leaf.kind && HasEntry(entries, leaf.id, entry)
  }

  // entries are those of m, each name at one id only.
  ghost predicate Represents(entries: TreeEntries, m: map<string, Leaf>) {
    && (forall k | k in m :: exists entry :: Stands(entries, entry, k, m[k]))
    && (forall id, entry | HasEntry(entries, id, entry) ::
          var k := SortName(entry.name, entry.kind); k in m && m[k] == Leaf(id, entry.kind))
  }

  // Each of the names sorted has an entry, and is one of those met.
  ghost predicate IsSelection(entries: TreeEntries, sorted: map<string, Leaf>) {
    forall k | k in sorted :: exists entry :: Stands(entries, entry, k, sorted[k])
  }

  predicate Met(sorted: map<string, Leaf>, entry: TreeEntry) {
    SortName(entry.name, entry.kind) in sorted
  }

  lemma SelectionIsAll(entries: TreeEntries, sorted: map<string, Leaf>, m: map<string, Leaf>)
    requires IsSelection(entries, sorted) && Represents(entries, m)
    requires forall id, entry | HasEntry(entries, id, entry) :: Met(sorted, entry)
    ensures sorted == m
  {
    forall k | k in sorted ensures k in m && m[k] == sorted[k] {
    }
    forall k | k in m ensures k in sorted {
    }
  }

  method SortEntries(entries: TreeEntries) returns (sorted: map<string, Leaf>)
    ensures IsSelection(entries, sorted)
    ensures forall id, entry | HasEntry(entries, id, entry) :: Met(sorted, entry)
  {
    sorted := map[];
    var todo := entries.Keys;
    while todo != {}
      invariant todo <= entries.Keys && IsSelection(entries, sorted)
      invariant forall id, entry | HasEntry(entries, id, entry) && id !in todo :: Met(sorted, entry)
    {
      var id :| id in todo;
      sorted := SortEntriesOf(entries, id, sorted);
      todo := todo - {id};
    }
  }

  // The names are emplaced: a name that is there already keeps its entry.
  method SortEntriesOf(entries: TreeEntries, id: string, before: map<string, Leaf>) returns (sorted: map<string, Leaf>)
    requires id in entries && IsSelection(entries, before)
    ensures IsSelection(entries, sorted)
    ensures forall entry | entry in entries[id] :: Met(sorted, entry)
    ensures forall entry | Met(before, entry) :: Met(sorted, entry)
  {
    sorted := before;
    for i := 0 to |entries[id]|
      invariant IsSelection(entries, sorted)
      invariant forall j | 0 <= j < i :: Met(sorted, entries[id][j])
      invariant forall entry | Met(before, entry) :: Met(sorted, entry)
    {
      var entry := entries[id][i];
      var k := SortName(entry.name, entry.kind);
      if k !in sorted {
        assert Stands(entries, entry, k, Leaf(id, entry.kind));
        sorted := sorted[k := Leaf(id, entry.kind)];
      }
    }
  }

  // GitRepo::CreateTree, up to writing the object: the content is determined by the names and what
  // they stand for, whatever the order in which the entries are met.
  method CreateTree(entries: TreeEntries) returns (content: string)
    ensures forall m | Represents(entries, m) :: content == Printed(m)
  {
    var sorted := SortEntries(entries);
    var keys := Sorted(sorted.Keys);
    content := "";
    for i := 0 to |keys|
      invariant content == Lines(sorted, keys[..i])
    {
      LinesStep(sorted, keys, i);
      content := content + Line(keys[i], sorted[keys[i]]);
    }
    assert keys[..|keys|] == keys;
    forall m | Represents(entries, m) ensures content == Printed(m) {
      SelectionIsAll(entries, sorted, m);
    }
  }

  // ---- The writer of just-lock ----

  // Directories are given with a trailing slash, other names without.
  ghost predicate WellKeyed(entries: map<string, Leaf>) {
    forall k | k in entries && entries[k].kind == Tree :: k != "" && k[|k| - 1] == '/'
  }

  // write_tree_to_repo, up to writing the object; None if it fails on the empty name.
  method WriteTree(entries: map<string, Leaf>) returns (content: Option<string>)
    ensures content.None? <==> "" in entries && entries[""].kind == Tree
    ensures WellKeyed(entries) ==> content == Some(Printed(entries))
  {
    var keys := Sorted(entries.Keys);
    var text := "";
    for i := 0 to |keys|
      invariant forall j | 0 <= j < i :: !(keys[j] == "" && entries[keys[j]].kind == Tree)
      invariant WellKeyed(entries) ==> text == Lines(entries, keys[..i])
    {
      var fname, leaf := keys[i], entries[keys[i]];
      if leaf.kind == Tree {
        if fname == "" {
          return None;
        }
        if fname[|fname| - 1] == '/' {
          fname := fname[..|fname| - 1];
        }
      }
      LinesStep(entries, keys, i);
      assert keys[i] in entries;
      assert WellKeyed(entries) ==> fname == Filename(keys[i], leaf.kind);
      text := text + (Perm(leaf.kind) + " " + fname + "\0" + leaf.id);
    }
    assert keys[..|keys|] == keys;
    assert forall k | k in entries :: k in keys;
    content := Some(text);
  }

  // Both writers produce the same bytes.
  method WritersAgree(entries: TreeEntries, named: map<string, Leaf>) returns (content: string, written: Option<string>)
    requires Represents(entries, named)
    ensures written == Some(content)
  {
    content := CreateTree(entries);
    written := WriteTree(named);
    forall k | k in named && named[k].kind == Tree ensures k != "" && k[|k| - 1] == '/' {
      var entry :| Stands(entries, entry, k, named[k]);
    }
  }
}
