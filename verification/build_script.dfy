/**
 * The `main` of build.rs as one run from inputs to outcome: the optional
 * git metadata step, the target-OS gate, and on Windows the rerun directive,
 * the descriptor and its compilation.
 */
module BuildScript {
  import opened Wrappers
  import opened Version
  import opened Resource

  /** The directive that makes Cargo rerun the script when the manifest changes. */
  const RerunDirective := "cargo:rerun-if-changed=Cargo.toml"

  /** The only target OS that gets a Windows resource. */
  const WindowsTarget := "windows"

  /**
   * The git metadata step: compiled out without the `cli` feature; with it,
   * either the directives it emitted or its failure.
   */
  datatype VcsFeature = Disabled | Emitted(directives: seq<string>) | Failed

  function VcsDirectives(vcs: VcsFeature): seq<string> {
    if vcs.Emitted? then vcs.directives else []
  }

  /** Which `expect` or `unwrap` aborted the build script. */
  datatype PanicReason = VcsEmitFailed | TargetOsUnset | ResourceCompileFailed

  /**
   * How a run ends: normally, with the directives printed and the descriptor
   * compiled (if any); or in a panic, with the directives printed before it.
   */
  datatype Outcome =
    | Finished(directives: seq<string>, resource: Option<Descriptor>)
    | Panicked(directives: seq<string>, reason: PanicReason)

  /**
   * One run of the build script. `targetOs` is the value of
   * CARGO_CFG_TARGET_OS (None when it is unset), `pkgVersion` that of
   * CARGO_PKG_VERSION, and `compileSucceeds` whether the resource compiler
   * succeeds on the descriptor.
   */
  method RunBuildScript(vcs: VcsFeature, targetOs: Option<string>, pkgVersion: string, compileSucceeds: bool)
    returns (outcome: Outcome)
    // a failed git step aborts before anything else happens
    ensures vcs.Failed? ==> outcome == Panicked([], VcsEmitFailed)
    // an unset target OS aborts before any Windows work
    ensures !vcs.Failed? && targetOs.None? ==> outcome == Panicked(VcsDirectives(vcs), TargetOsUnset)
    // any target other than exactly "windows": nothing more printed, no resource, success
    ensures !vcs.Failed? && targetOs.Some? && targetOs.value != WindowsTarget ==>
      outcome == Finished(VcsDirectives(vcs), None)
    // on Windows the rerun directive is printed before the compiler runs
    ensures !vcs.Failed? && targetOs == Some(WindowsTarget) ==>
      outcome.directives == VcsDirectives(vcs) + [RerunDirective]
    ensures !vcs.Failed? && targetOs == Some(WindowsTarget) && !compileSucceeds ==>
      outcome == Panicked(VcsDirectives(vcs) + [RerunDirective], ResourceCompileFailed)
    ensures !vcs.Failed? && targetOs == Some(WindowsTarget) && compileSucceeds ==>
      outcome.Finished? && outcome.resource == Some(ScriptDescriptor(WinVersion(BaseVersion(pkgVersion))))
    // a resource is produced exactly on a successful Windows run
    ensures outcome.Finished? && outcome.resource.Some? <==>
      !vcs.Failed? && targetOs == Some(WindowsTarget) && compileSucceeds
  {
    var directives: seq<string> := [];
    match vcs {
      case Disabled =>
      case Emitted(emitted) =>
        directives := directives + emitted;
      case Failed =>
        return Panicked(directives, VcsEmitFailed);
    }
    if targetOs.None? {
      return Panicked(directives, TargetOsUnset);
    }
    if targetOs.value == WindowsTarget {
      directives := directives + [RerunDirective];
      var base := BaseVersion(pkgVersion);
      var winVersion := WinVersion(base);
      var descriptor := Populate(winVersion);
      if !compileSucceeds {
        return Panicked(directives, ResourceCompileFailed);
      }
      return Finished(directives, Some(descriptor));
    }
    return Finished(directives, None);
  }
}
