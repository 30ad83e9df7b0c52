// PathIsNonUpwards (src/utils/cpp/path.hpp:36-43): the check on the target of a symbolic link.
module NonUpwards {
  import opened StagePaths

  // std::filesystem::path::lexically_normal of a relative path, on segments: what is done so far,
  // then the segments to come.
  function Normalized(done: seq<string>, rest: seq<string>): seq<string>
    decreases |rest|
  {
    if rest == [] then done
    else if rest[0] == "" || rest[0] == "." then Normalized(done, rest[1..])
    else if rest[0] == ".." && done != [] && done[|done| - 1] != ".." then Normalized(done[..|done| - 1], rest[1..])
    else Normalized(done + [rest[0]], rest[1..])
  }

  predicate PathIsNonUpwards(path: string) {
    if path != "" && path[0] == '/' then false
    else
      var normal := Normalized([], Split(path));
      normal == [] || normal[0] != ".."
  }

  // ---- Following the path step by step ----

  function Step(segment: string): int {
    if segment == "" || segment == "." then 0 else if segment == ".." then -1 else 1
  }

  // How deep below (or above) the starting point one gets.
  function Depth(p: seq<string>): int {
    if p == [] then 0 else Depth(p[..|p| - 1]) + Step(p[|p| - 1])
  }

  // At no point is the directory left where following the path starts.
  ghost predicate StaysBelow(p: seq<string>) {
    forall i | 0 <= i <= |p| :: Depth(p[..i]) >= 0
  }

  // The normal form of a path that has stayed below is the list of directories entered.
  ghost predicate IsDown(done: seq<string>) {
    forall i | 0 <= i < |done| :: Step(done[i]) == 1
  }

  lemma {:induction false} NormalOfUpwards(done: seq<string>, rest: seq<string>)
    requires done != [] && done[0] == ".."
    ensures Normalized(done, rest) != [] && Normalized(done, rest)[0] == ".."
    decreases |rest|
  {
    if rest == [] {
    } else if rest[0] == "" || rest[0] == "." {
      NormalOfUpwards(done, rest[1..]);
    } else if rest[0] == ".." && done[|done| - 1] != ".." {
      NormalOfUpwards(done[..|done| - 1], rest[1..]);
    } else {
      NormalOfUpwards(done + [rest[0]], rest[1..]);
    }
  }

  lemma {:induction false} NormalizedFrom(p: seq<string>, k: nat, done: seq<string>)
    requires k <= |p| && IsDown(done) && |done| == Depth(p[..k])
    requires forall i | 0 <= i <= k :: Depth(p[..i]) >= 0
    ensures
      var normal := Normalized(done, p[k..]);
      (normal == [] || normal[0] != "..") <==> StaysBelow(p)
    decreases |p| - k
  {
    if k == |p| {
      assert done != [] ==> Step(done[0]) == 1;
    } else {
      var s := p[k];
      assert p[k..][0] == s && p[k..][1..] == p[k + 1..];
      assert p[..k + 1][..k] == p[..k] && Depth(p[..k + 1]) == Depth(p[..k]) + Step(s);
      if Step(s) == 0 {
        NormalizedFrom(p, k + 1, done);
      } else if Step(s) == 1 {
        NormalizedFrom(p, k + 1, done + [s]);
      } else if done != [] {
        assert Step(done[|done| - 1]) == 1;
        NormalizedFrom(p, k + 1, done[..|done| - 1]);
      } else {
        NormalOfUpwards([".."], p[k + 1..]);
        assert done + [s] == [".."];
        assert Depth(p[..k + 1]) < 0 && !StaysBelow(p);
      }
    }
  }

  // The check admits exactly the relative paths that never leave the directory of the link.
  lemma NonUpwardsStaysBelow(path: string)
    ensures PathIsNonUpwards(path) <==> (path == "" || path[0] != '/') && StaysBelow(Split(path))
  {
    assert Split(path)[0..] == Split(path) && Split(path)[..0] == [];
    NormalizedFrom(Split(path), 0, []);
  }
}
