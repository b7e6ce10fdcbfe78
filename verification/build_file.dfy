/** The entities the build-file parser produces and the external capability it uses. */
module BuildFile {
  import opened Wrappers

  /** One target of the build-file: its name, its expanded shell instructions in
      file order, and the names of the targets it depends on, as written. */
  datatype Target = Target(name: string, commands: seq<string>, dependencies: seq<string>)

  /** The global variable table filled by `export` lines. */
  type Globals = map<string, string>

  /** The command executor: runs `bash -c cmd` and yields its raw standard output,
      or None when spawning, waiting or reading fails. The exit status is not
      part of the result, as the source ignores it. */
  type Executor = string -> Option<string>

  /** Every way the parse, the graph construction or the build can stop. */
  datatype Error =
    | MissingName                 // ':' before any name character
    | SeparatorInName             // ' ', '\t' or '\n' inside a target name
    | UnterminatedName            // input ends inside a target name
    | UnterminatedDependents      // input ends before the dependency line's '\n'
    | ExportWithoutName           // `export` line with no name, or a leading '='
    | ExecFailed(command: string) // the executor could not run a command
    | MissingDependency(name: string)
    | DependencyCycle(name: string)
    | UnknownTarget(name: string)

  /** The target a name resolves to, as `main` and `add_branch` look it up. */
  function FindTarget(targets: seq<Target>, name: string): (r: Option<nat>)
    ensures r.Some? ==> r.value < |targets| && targets[r.value].name == name
  {
    FindFirst(targets, (t: Target) => t.name == name)
  }

  /** The lookup takes the first target of that name, and finds nothing
      exactly when no target has it. */
  lemma FindTargetIsFirst(targets: seq<Target>, name: string)
    ensures var r := FindTarget(targets, name);
      (r.Some? ==> forall j :: 0 <= j < r.value ==> targets[j].name != name) &&
      (r.None? <==> forall j :: 0 <= j < |targets| ==> targets[j].name != name)
  {
  }
}
