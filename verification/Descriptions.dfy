// Content descriptions of repositories (src/buildtool/common/repository_config.cpp:22-38).
module Descriptions {
  import opened Wrappers

  // What a root is known by: a Git tree (present or absent) has a content description; a local
  // directory has none, and neither has a root that is yet to be computed.
  datatype Root = Fixed(description: string) | Local(path: string) | Precomputed(key: string)

  datatype Info = Info(
    workspaceRoot: Root, targetRoot: Root, ruleRoot: Root, expressionRoot: Root,
    nameMapping: map<string, string>,
    targetFile: string, ruleFile: string, expressionFile: string)
  {
    predicate IsFixed() {
      workspaceRoot.Fixed? && targetRoot.Fixed? && ruleRoot.Fixed? && expressionRoot.Fixed?
    }

    // One of the roots is the given precomputed root.
    predicate Names(key: string) {
      Precomputed(key) in {workspaceRoot, targetRoot, ruleRoot, expressionRoot}
    }

    predicate IsResolved() {
      !workspaceRoot.Precomputed? && !targetRoot.Precomputed? && !ruleRoot.Precomputed? && !expressionRoot.Precomputed?
    }

    // All roots are fixed once the given precomputed root is.
    predicate IsFixedUpTo(key: string) {
      forall r | r in {workspaceRoot, targetRoot, ruleRoot, expressionRoot} :: r.Fixed? || r == Precomputed(key)
    }

    function BaseContentDescription(): Option<BaseDescription> {
      if IsFixed() then
        Some(BaseDescription(workspaceRoot.description, targetRoot.description, ruleRoot.description,
                             expressionRoot.description, targetFile, ruleFile, expressionFile))
      else None
    }

    function Replace(key: string, value: string): Info {
      this.(workspaceRoot := ReplaceRoot(workspaceRoot, key, value),
            targetRoot := ReplaceRoot(targetRoot, key, value),
            ruleRoot := ReplaceRoot(ruleRoot, key, value),
            expressionRoot := ReplaceRoot(expressionRoot, key, value))
    }
  }

  function ReplaceRoot(root: Root, key: string, value: string): Root {
    if root == Precomputed(key) then Fixed(value) else root
  }

  datatype BaseDescription = BaseDescription(
    workspaceRoot: string, targetRoot: string, ruleRoot: string, expressionRoot: string,
    targetFile: string, ruleFile: string, expressionFile: string)
}
