// Object infos as strings, Artifact::ObjectInfo (src/buildtool/common/artifact.hpp:43-115), with the
// digests and their validation (src/buildtool/common/artifact_digest_factory.cpp:24-37,
// src/buildtool/crypto/hash_info.cpp:79-110).
module ObjectInfo {
  import opened Wrappers
  import opened Numbers
  import opened GitTree

  datatype HashType = GitSHA1 | PlainSHA256
  {
    function HashLength(): nat {
      if GitSHA1? then 40 else 64
    }

    // ProtocolTraits::IsTreeAllowed
    predicate IsTreeAllowed() {
      GitSHA1?
    }
  }

  datatype Digest = Digest(hashType: HashType, hash: string, isTree: bool, size: nat)

  datatype Info = Info(digest: Digest, kind: ObjectType, failed: bool)

  predicate IsHexString(s: string) {
    forall i | 0 <= i < |s| :: FromDigit(s[i]).Some?
  }

  // ArtifactDigestFactory::Create; None for an error.
  function CreateDigest(hashType: HashType, hash: string, size: nat, isTree: bool): Option<Digest> {
    if |hash| != hashType.HashLength() || !IsHexString(hash) then None
    else Some(Digest(hashType, hash, hashType.IsTreeAllowed() && isTree, size))
  }

  function ToChar(kind: ObjectType): char {
    match kind
    case File => 'f'
    case Executable => 'x'
    case Tree => 't'
    case Symlink => 'l'
  }

  function FromChar(c: char): ObjectType {
    if c == 'x' then Executable else if c == 't' then Tree else if c == 'l' then Symlink else File
  }

  // The letters of the kinds; any other one stands for a file.
  lemma KindLetters(kind: ObjectType, c: char)
    ensures ToChar(kind) == match kind case File => 'f' case Executable => 'x' case Tree => 't' case Symlink => 'l'
    ensures FromChar(c) == kind <==> c == ToChar(kind) || (kind == File && c !in {'f', 'x', 't', 'l'})
  {
  }

  function ToString(info: Info, sizeUnknown: bool): string {
    "[" + info.digest.hash + ":" + (if sizeUnknown then "" else Print(info.digest.size)) + ":" + [ToChar(info.kind)]
        + "]"
    + (if info.failed then " FAILED" else "")
  }

  // ---- Reading ----

  // std::getline: the characters up to the delimiter, or up to the end, and what is left of the stream;
  // None if there is nothing to read.
  function GetLine(s: string, delim: char): Option<(string, string)> {
    if s == "" then None
    else if s[0] == delim then Some(("", s[1..]))
    else
      var rest := GetLine(s[1..], delim);
      if rest.None? then Some(([s[0]], "")) else Some(([s[0]] + rest.value.0, rest.value.1))
  }

  function FromString(hashType: HashType, s: string): Option<Info> {
    if s == "" || s[0] != '[' then None
    else
      var id := GetLine(s[1..], ':');
      if id.None? then None
      else
        var size := GetLine(id.value.1, ':');
        if size.None? then None
        else
          var kind := GetLine(size.value.1, ']');
          if kind.None? || Stoul(size.value.0).None? then None
          else
            var objectType := if kind.value.0 == "" then File else FromChar(kind.value.0[0]);
            var digest := CreateDigest(hashType, id.value.0, Stoul(size.value.0).value, objectType == Tree);
            if digest.None? then None else Some(Info(digest.value, objectType, false))
  }

  // ---- Reading what was printed ----

  // An info as the digest factory and the object types make it.
  predicate IsValid(info: Info) {
    && |info.digest.hash| == info.digest.hashType.HashLength() && IsHexString(info.digest.hash)
    && info.digest.size < TWO_TO_THE_64
    && info.digest.isTree == (info.digest.hashType.IsTreeAllowed() && info.kind == Tree)
  }

  lemma {:induction false} GetLineUpTo(a: string, delim: char, b: string)
    requires delim !in a
    ensures GetLine(a + [delim] + b, delim) == Some((a, b))
  {
    var s := a + [delim] + b;
    if a == "" {
      assert s[1..] == b;
    } else {
      assert s[0] == a[0] && s[1..] == a[1..] + [delim] + b && a == [a[0]] + a[1..];
      GetLineUpTo(a[1..], delim, b);
    }
  }

  // Every valid info is read back from its string, except that the failed flag is dropped; the size
  // counts, although comparing digests ignores it.
  lemma RoundTrip(info: Info)
    requires IsValid(info)
    ensures FromString(info.digest.hashType, ToString(info, false)) == Some(info.(failed := false))
  {
    var hash, size, kind := info.digest.hash, Print(info.digest.size), [ToChar(info.kind)];
    var tail := if info.failed then " FAILED" else "";
    var s := ToString(info, false);
    assert ':' !in hash;
    assert ':' !in size;
    assert s == ['['] + (hash + [':'] + (size + [':'] + (kind + [']'] + tail)));
    GetLineUpTo(hash, ':', size + [':'] + (kind + [']'] + tail));
    GetLineUpTo(size, ':', kind + [']'] + tail);
    GetLineUpTo(kind, ']', tail);
    StoulPrinted(info.digest.size);
  }

  // What is read is valid, whatever the string; so printing it again and reading it changes nothing.
  lemma ReadIsStable(hashType: HashType, s: string)
    requires FromString(hashType, s).Some?
    ensures
      var info := FromString(hashType, s).value;
      IsValid(info) && info.digest.hashType == hashType && FromString(hashType, ToString(info, false)) == Some(info)
  {
    var size := GetLine(GetLine(s[1..], ':').value.1, ':');
    StoulRange(size.value.0);
    RoundTrip(FromString(hashType, s).value);
  }

  // A string with the size left out is not read back at all.
  lemma UnknownSizeIsLost(info: Info)
    requires IsValid(info)
    ensures FromString(info.digest.hashType, ToString(info, true)) == None
  {
    var hash, kind := info.digest.hash, [ToChar(info.kind)];
    var tail := if info.failed then " FAILED" else "";
    assert ':' !in hash;
    assert ToString(info, true) == ['['] + (hash + [':'] + ("" + [':'] + (kind + [']'] + tail)));
    GetLineUpTo(hash, ':', "" + [':'] + (kind + [']'] + tail));
    GetLineUpTo("", ':', kind + [']'] + tail);
  }
}
