/** Which branch of the Go Docker images repository a build should update. */
module BranchMapping {
  import opened Strings

  const MainTarget := "microsoft/main"

  /**
   * The target branch for a build of `branch`: the Docker repository's main
   * branch for "main" and for release branches, the same branch for
   * "dev/official/" branches, and "" (nothing to update) for every other branch.
   */
  function DockerRepoTargetBranch(branch: string): (target: string)
    ensures target == MainTarget <==> branch == "main" || HasPrefix(branch, "release-branch.")
    ensures target == branch && target != "" <==> HasPrefix(branch, "dev/official/")
    ensures target == "" <==>
      branch != "main" && !HasPrefix(branch, "release-branch.") && !HasPrefix(branch, "dev/official/")
  {
    assert HasPrefix(branch, "dev/official/") ==> branch[0] == 'd' && branch != MainTarget;
    assert HasPrefix(branch, "release-branch.") ==> branch[0] == 'r';
    if branch == "main" || HasPrefix(branch, "release-branch.") then MainTarget
    else if HasPrefix(branch, "dev/official/") then branch
    else ""
  }

  /** A non-empty target is always a branch the Docker repository accepts builds for. */
  lemma TargetIsMainOrOfficial(branch: string)
    ensures var target := DockerRepoTargetBranch(branch);
      target == "" || target == MainTarget || HasPrefix(target, "dev/official/")
  {
  }

  lemma Examples()
    ensures DockerRepoTargetBranch("main") == MainTarget
    ensures DockerRepoTargetBranch("release-branch.1.20") == MainTarget
    ensures DockerRepoTargetBranch("dev/official/foo") == "dev/official/foo"
    ensures DockerRepoTargetBranch("feature/x") == ""
    ensures DockerRepoTargetBranch("microsoft/main") == ""
  {
  }
}
