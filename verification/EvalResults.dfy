/**
 Evaluation results and their copy in the workload status: `EvalResponse` in
 niphas-core's `eval.rs` and `from_status` in the operator's `eval.rs`.
 */
module EvalResults {
  import opened Outcomes
  import opened Sequences
  import opened Text
  import opened StorePaths

  datatype EvalResult = EvalResult(
    storePath: string,
    name: string,
    mainProgram: Option<string>,
    closurePaths: seq<string>)

  function Program(r: EvalResult): string { if r.mainProgram.Some? then r.mainProgram.value else r.name }

  function ResolvedCommand(r: EvalResult): string { r.storePath + "/bin/" + Program(r) }

  /** The part of the status that caches an evaluation. */
  datatype CachedEval = CachedEval(
    storePath: Option<string>,
    resolvedCommand: Option<string>,
    closurePaths: Option<seq<string>>)

  /** What `update_status` writes. */
  function Persist(r: EvalResult): CachedEval {
    CachedEval(Some(r.storePath), Some(ResolvedCommand(r)), Some(r.closurePaths))
  }

  /** `rsplit(sep).next()`: the text after the last separator. */
  function LastPart(s: string, sep: char): string {
    var parts := Split(s, sep);
    parts[|parts| - 1]
  }

  /** `from_status`. The store path is parsed for its name, which can abort on text that is not ASCII. */
  function FromStatus(c: CachedEval): Outcome<Option<EvalResult>, Error> {
    if c.storePath.None? then Ok(None)
    else
      var parsed := Parse(c.storePath.value);
      if parsed.Panic? then Panic
      else
        var name := if parsed.Ok? then parsed.value.name else "unknown";
        var mainProgram := if c.resolvedCommand.Some? then Some(LastPart(c.resolvedCommand.value, '/')) else None;
        var closurePaths := if c.closurePaths.Some? then c.closurePaths.value else [];
        Ok(Some(EvalResult(c.storePath.value, name, mainProgram, closurePaths)))
  }

  /** What a Deployment is built from: its command, which the spec may override, and the closure list of its volume. */
  function DeploymentInputs(r: EvalResult, command: Option<seq<string>>): (seq<string>, string) {
    (if command.Some? then command.value else [ResolvedCommand(r)], JoinWith(r.closurePaths, ","))
  }

  lemma {:induction false} SplitAtLeastTwo(a: string, sep: char, b: string)
    ensures |Split(a + [sep] + b, sep)| >= 2
  {
    var s := a + [sep] + b;
    if a == "" {
      assert s == "" + [sep] + b;
      SplitPlain("", sep, b);
    } else {
      assert s[1..] == a[1..] + [sep] + b;
      SplitAtLeastTwo(a[1..], sep, b);
    }
  }

  /** What comes before a separator does not matter for the last part. */
  lemma {:induction false} LastPartAfter(a: string, sep: char, b: string)
    ensures LastPart(a + [sep] + b, sep) == LastPart(b, sep)
  {
    var s := a + [sep] + b;
    if a == "" {
      assert s == "" + [sep] + b;
      SplitPlain("", sep, b);
    } else {
      assert s[1..] == a[1..] + [sep] + b;
      LastPartAfter(a[1..], sep, b);
      SplitAtLeastTwo(a[1..], sep, b);
    }
  }

  /** Text without a separator is its own last part, and no other text is. */
  lemma LastPartPlain(s: string, sep: char)
    ensures sep !in LastPart(s, sep) && (LastPart(s, sep) == s <==> sep !in s)
  {
    PartsHaveNoSeparator(s, sep, |Split(s, sep)| - 1);
    if sep !in s {
      SplitPlain(s, sep, "");
    }
  }

  /** Rebuilding a persisted result gives the same closure, and the same command exactly when the program's name has no
      slash; the deployment is the same exactly then or when the spec overrides the command. */
  lemma CachedAgreesWithFresh(r: EvalResult, command: Option<seq<string>>)
    requires !Parse(r.storePath).Panic?
    ensures FromStatus(Persist(r)).Ok? && FromStatus(Persist(r)).value.Some?
    ensures var cached := FromStatus(Persist(r)).value.value;
            && cached.storePath == r.storePath && cached.closurePaths == r.closurePaths
            && (ResolvedCommand(cached) == ResolvedCommand(r) <==> '/' !in Program(r)) && '/' !in Program(cached)
            && (DeploymentInputs(cached, command) == DeploymentInputs(r, command) <==>
                  command.Some? || '/' !in Program(r))
  {
    hide Parse, Split;
    var cached := FromStatus(Persist(r)).value.value;
    var resolved, program := ResolvedCommand(r), Program(r);
    assert resolved == (r.storePath + "/bin") + ['/'] + program by {
      assert "/bin/" == "/bin" + ['/'];
      assert r.storePath + "/bin/" + program == r.storePath + ("/bin" + ['/']) + program;
    }
    assert Program(cached) == LastPart(resolved, '/');
    PartsHaveNoSeparator(resolved, '/', |Split(resolved, '/')| - 1);
    if '/' !in program {
      LastPartAfter(r.storePath + "/bin", '/', program);
      LastPartPlain(program, '/');
    } else {
      SamePrefix(r.storePath + "/bin/", Program(cached), program);
    }
    assert [ResolvedCommand(cached)][0] == ResolvedCommand(cached) && [resolved][0] == resolved;
  }

  lemma SamePrefix(p: string, a: string, b: string)
    ensures p + a == p + b <==> a == b
  {
    assert (p + a)[|p|..] == a && (p + b)[|p|..] == b;
  }

  /** `n` passes over the cached result. */
  function Rebuilt(r: EvalResult, n: nat): Outcome<EvalResult, Error> {
    if n == 0 then Ok(r)
    else
      var before :- Rebuilt(r, n - 1);
      var again :- FromStatus(Persist(before));
      if again.Some? then Ok(again.value) else Err(InvalidInput)
  }

  /** However many passes use the cache, the deployment is what the evaluation gave exactly when none does, the spec
      overrides the command, or the program's name has no slash. */
  lemma {:induction false} CacheNeverDrifts(r: EvalResult, command: Option<seq<string>>, n: nat)
    requires !Parse(r.storePath).Panic?
    ensures Rebuilt(r, n).Ok?
    ensures var cached := Rebuilt(r, n).value;
            && cached.storePath == r.storePath && cached.closurePaths == r.closurePaths
            && (n > 0 ==> '/' !in Program(cached))
            && (ResolvedCommand(cached) == ResolvedCommand(r) <==> n == 0 || '/' !in Program(r))
            && (DeploymentInputs(cached, command) == DeploymentInputs(r, command) <==>
                  n == 0 || command.Some? || '/' !in Program(r))
  {
    hide Parse, FromStatus, ResolvedCommand;
    if n > 0 {
      CacheNeverDrifts(r, command, n - 1);
      var before := Rebuilt(r, n - 1).value;
      CachedAgreesWithFresh(before, command);
      var after := FromStatus(Persist(before)).value.value;
      assert [ResolvedCommand(after)][0] == ResolvedCommand(after) && [ResolvedCommand(r)][0] == ResolvedCommand(r);
    }
  }
}
