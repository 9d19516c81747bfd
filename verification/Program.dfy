/** From SQL text to the data directory: one text through all passes. */
module Program {
  import opened Wrappers
  import opened Schemas
  import opened Sql
  import opened Selection
  import opened Tokenizer
  import opened Parser
  import opened Executor
  import opened FrontEnd
  import opened Coherence
  import opened Storage
  import Database
  import Runs

  lemma ReadMeans(sql: string)
    ensures match Lex(sql, 0, [])
            case Failure(_, _) => Read(sql) == None
            case Tokens(items) =>
              && Ended(items)
              && match ParseProgram(items)
                 case Rejected(_) => Read(sql) == None
                 case Parsed(program, _) =>
                   && Read(sql) == Some(program)
                   && forall s | s in program :: Database.Paired(s) && Runs.Acceptable(s)
  {
    if Lex(sql, 0, []).Tokens? {
      var at := TokensStandInText(sql);
      hide Lex, ParseProgram, GoodText;
      if Read(sql).Some? {
        ReadIsAcceptable(sql);
        forall s | s in Read(sql).value
          ensures Database.Paired(s) && Runs.Acceptable(s)
        {
        }
      }
    }
  }

  /** What a text that is no program leaves behind: nothing. Otherwise its statements take
      effect in order, up to the first that fails. */
  ghost function TextRun(db: Database.Db, schemas: map<string, Schema>, sql: string): (Database.Db, seq<Output>) {
    match Read(sql)
    case None => (db, [])
    case Some(program) =>
      ReadMeans(sql);
      ProgramRun(db, schemas, program)
  }

  // ---------- What a text does, step by step ----------

  /** The states a program goes through: each statement in turn takes the state before it to the one
      after it and gives its output; all outputs before the last are of statements that succeeded,
      and if not every statement was reached, the last failed. */
  ghost predicate GoesThrough(states: seq<Database.Db>, schemas: map<string, Schema>, program: seq<Statement>,
                              outputs: seq<Output>)
  {
    && |states| == |outputs| + 1 && |outputs| <= |program|
    && (forall i | 0 <= i < |outputs| ::
          && Database.Paired(program[i])
          && (states[i + 1], outputs[i]) == Database.Executed(states[i], schemas, program[i]))
    && (forall i | 0 <= i < |outputs| - 1 :: outputs[i].ok)
    && (|outputs| < |program| ==> outputs != [] && !outputs[|outputs| - 1].ok)
  }

  /** The text took one database to another: a text that is no program does nothing, and any other
      is run statement by statement. */
  ghost predicate Ran(before: Database.Db, schemas: map<string, Schema>, sql: string, after: Database.Db,
                      outputs: seq<Output>)
  {
    match Read(sql)
    case None => after == before && outputs == []
    case Some(program) =>
      exists states | GoesThrough(states, schemas, program, outputs) ::
        states[0] == before && states[|outputs|] == after
  }

  lemma {:induction false} ProgramGoesThrough(db: Database.Db, schemas: map<string, Schema>, program: seq<Statement>)
    returns (states: seq<Database.Db>)
    requires forall s | s in program :: Database.Paired(s)
    ensures var (d, outputs) := ProgramRun(db, schemas, program);
            GoesThrough(states, schemas, program, outputs) && states[0] == db && states[|outputs|] == d
    decreases |program|
  {
    hide Database.Executed;
    if program == [] {
      states := [db];
    } else {
      var (d, out) := Database.Executed(db, schemas, program[0]);
      assert program[0] in program;
      if out.ok {
        var rest := ProgramGoesThrough(d, schemas, program[1..]);
        states := [db] + rest;
        hide ProgramRun;
        OneStepMore(db, d, out, rest, schemas, program, ProgramRun(d, schemas, program[1..]).1);
        assert ProgramRun(db, schemas, program).1 == [out] + ProgramRun(d, schemas, program[1..]).1 by {
          ProgramStep(db, schemas, program);
        }
        ProgramStep(db, schemas, program);
      } else {
        states := [db, d];
      }
    }
  }

  lemma ProgramStep(db: Database.Db, schemas: map<string, Schema>, program: seq<Statement>)
    requires program != [] && forall s | s in program :: Database.Paired(s)
    ensures program[0] in program
    ensures var (d, out) := Database.Executed(db, schemas, program[0]);
            out.ok ==>
              var (e, rest) := ProgramRun(d, schemas, program[1..]);
              ProgramRun(db, schemas, program) == (e, [out] + rest)
  {
    hide Database.Executed;
  }

  lemma OneStepMore(db: Database.Db, d: Database.Db, out: Output, states: seq<Database.Db>,
                    schemas: map<string, Schema>, program: seq<Statement>, outputs: seq<Output>)
    requires program != [] && Database.Paired(program[0]) && out.ok
    requires (d, out) == Database.Executed(db, schemas, program[0])
    requires GoesThrough(states, schemas, program[1..], outputs) && states[0] == d
    ensures GoesThrough([db] + states, schemas, program, [out] + outputs)
  {
    hide Database.Executed;
    var all, outs := [db] + states, [out] + outputs;
    forall i | 0 <= i < |outs|
      ensures Database.Paired(program[i]) && (all[i + 1], outs[i]) == Database.Executed(all[i], schemas, program[i])
    {
      if i > 0 {
        assert program[i] == program[1..][i - 1] && outs[i] == outputs[i - 1];
        assert all[i] == states[i - 1] && all[i + 1] == states[i];
      }
    }
    assert forall i | 0 < i < |outs| :: outs[i] == outputs[i - 1];
  }

  /** The run of a text as it is computed is the run of a text as it is meant. */
  lemma TextRan(db: Database.Db, schemas: map<string, Schema>, sql: string)
    ensures Ran(db, schemas, sql, TextRun(db, schemas, sql).0, TextRun(db, schemas, sql).1)
  {
    ReadMeans(sql);
    hide Lex, ParseProgram, Read, ProgramRun, GoesThrough;
    if Read(sql).Some? {
      var states := ProgramGoesThrough(db, schemas, Read(sql).value);
    }
  }

  lemma TextRunIs(db: Database.Db, schemas: map<string, Schema>, sql: string)
    ensures match Read(sql)
            case None => TextRun(db, schemas, sql) == (db, [])
            case Some(program) =>
              && (forall s | s in program :: Database.Paired(s))
              && TextRun(db, schemas, sql) == ProgramRun(db, schemas, program)
  {
    ReadMeans(sql);
    hide Lex, ParseProgram, Read, ProgramRun;
  }

  /** Running statements keeps the invariant. */
  lemma {:induction false} ProgramIsCoherent(db: Database.Db, schemas: map<string, Schema>, statements: seq<Statement>)
    requires GoodSchemas(schemas) && Coherent(db, schemas)
    requires forall s | s in statements :: Database.Paired(s) && Runs.Acceptable(s)
    ensures Coherent(ProgramRun(db, schemas, statements).0, schemas)
    decreases |statements|
  {
    hide Coherent, GoodSchemas;
    if statements != [] {
      var s := statements[0];
      assert s in statements;
      Runs.StepIsCoherent(db, schemas, Runs.Execute(s));
      hide Database.Executed;
      if Database.Executed(db, schemas, s).1.ok {
        ProgramIsCoherent(Database.Executed(db, schemas, s).0, schemas, statements[1..]);
      }
    }
  }

  /** Whatever text is run, every index stays the index of its file; it succeeds exactly when the
      text is a program and every statement of it succeeds. */
  method RunSqlText(executor: Executor, sql: string) returns (ok: bool, outputs: seq<Output>)
    requires executor.Valid() && GoodSchemas(executor.schemas) && Coherent(executor.Db(), executor.schemas)
    modifies executor.disk, executor.states.Repr()
    ensures executor.Valid() && Coherent(executor.Db(), executor.schemas)
    ensures fresh(executor.states.Repr() - old(executor.states.Repr()))
    ensures (executor.Db(), outputs) == TextRun(old(executor.Db()), executor.schemas, sql)
    ensures Ran(old(executor.Db()), executor.schemas, sql, executor.Db(), outputs)
    ensures ok <==> Read(sql).Some? && forall o | o in outputs :: o.ok
    ensures ok ==> |outputs| == |Read(sql).value|
  {
    hide Coherent, GoodSchemas, Lex, ParseProgram, Read, ProgramRun, Ran, TextRun, Ended, Runs.Acceptable;
    TextRan(executor.Db(), executor.schemas, sql);
    TextRunIs(executor.Db(), executor.schemas, sql);
    var tokens := TokenizeSql(sql);
    ReadMeans(sql);
    if tokens.Failure? {
      return false, [];
    }
    var parser := new ParserState(tokens.items);
    var program := parser.Program();
    if program.Rejected? {
      return false, [];
    }
    ProgramIsCoherent(executor.Db(), executor.schemas, program.value);
    AllOkIsAll(executor.Db(), executor.schemas, program.value);
    ok, outputs := executor.ExecuteProgram(program.value);
  }

  // ---------- Processes ----------

  /** The texts that one process runs, in order. */
  ghost function SessionRun(db: Database.Db, schemas: map<string, Schema>,
                            texts: seq<string>): (Database.Db, seq<seq<Output>>) {
    if texts == [] then (db, [])
    else
      var n := |texts| - 1;
      var (d, outputs) := SessionRun(db, schemas, texts[..n]);
      var (e, output) := TextRun(d, schemas, texts[n]);
      (e, outputs + [output])
  }

  /** One process after the other on the same data directory: each starts without states. */
  ghost function SessionsRun(files: map<string, string>, schemas: map<string, Schema>, sessions: seq<seq<string>>):
      (map<string, string>, seq<seq<seq<Output>>>) {
    if sessions == [] then (files, [])
    else
      var n := |sessions| - 1;
      var (before, outputs) := SessionsRun(files, schemas, sessions[..n]);
      var (db, output) := SessionRun(Database.Db(before, []), schemas, sessions[n]);
      (db.files, outputs + [output])
  }

  /** The texts took one database to another, each in turn. */
  ghost predicate RanAll(states: seq<Database.Db>, schemas: map<string, Schema>, texts: seq<string>,
                         outputs: seq<seq<Output>>)
  {
    && |states| == |texts| + 1 && |outputs| == |texts|
    && forall i | 0 <= i < |texts| :: Ran(states[i], schemas, texts[i], states[i + 1], outputs[i])
  }

  /** A process that finds these files runs the texts and leaves those files. */
  ghost predicate SessionRan(before: map<string, string>, schemas: map<string, Schema>, texts: seq<string>,
                             after: map<string, string>, outputs: seq<seq<Output>>)
  {
    exists states: seq<Database.Db> | RanAll(states, schemas, texts, outputs) ::
      states[0] == Database.Db(before, []) && states[|texts|].files == after
  }

  /** Processes one after the other, each on the files of the one before. */
  ghost predicate RanSessions(files: seq<map<string, string>>, schemas: map<string, Schema>,
                              sessions: seq<seq<string>>, outputs: seq<seq<seq<Output>>>)
  {
    && |files| == |sessions| + 1 && |outputs| == |sessions|
    && forall i | 0 <= i < |sessions| :: SessionRan(files[i], schemas, sessions[i], files[i + 1], outputs[i])
  }

  lemma {:induction false} SessionStates(db: Database.Db, schemas: map<string, Schema>, texts: seq<string>)
    returns (states: seq<Database.Db>)
    ensures |states| == |texts| + 1
    ensures var (d, outputs) := SessionRun(db, schemas, texts);
            RanAll(states, schemas, texts, outputs) && states[0] == db && states[|texts|] == d
  {
    hide Ran, TextRun;
    if texts == [] {
      states := [db];
    } else {
      var n := |texts| - 1;
      var before := SessionStates(db, schemas, texts[..n]);
      TextRan(before[n], schemas, texts[n]);
      states := before + [TextRun(before[n], schemas, texts[n]).0];
    }
  }

  lemma {:induction false} SessionsFiles(files: map<string, string>, schemas: map<string, Schema>,
                                         sessions: seq<seq<string>>) returns (all: seq<map<string, string>>)
    ensures var (after, outputs) := SessionsRun(files, schemas, sessions);
            RanSessions(all, schemas, sessions, outputs) && all[0] == files && all[|sessions|] == after
  {
    hide RanAll, SessionRun;
    if sessions == [] {
      all := [files];
    } else {
      var n := |sessions| - 1;
      var before := SessionsFiles(files, schemas, sessions[..n]);
      var states := SessionStates(Database.Db(before[n], []), schemas, sessions[n]);
      SessionRanIs(states, before[n], schemas, sessions[n]);
      hide SessionRan;
      all := before + [SessionRun(Database.Db(before[n], []), schemas, sessions[n]).0.files];
    }
  }

  lemma SessionRanIs(states: seq<Database.Db>, before: map<string, string>, schemas: map<string, Schema>,
                     texts: seq<string>)
    requires |states| == |texts| + 1
    requires var (d, outputs) := SessionRun(Database.Db(before, []), schemas, texts);
             RanAll(states, schemas, texts, outputs) && states[0] == Database.Db(before, []) && states[|texts|] == d
    ensures var (d, outputs) := SessionRun(Database.Db(before, []), schemas, texts);
            SessionRan(before, schemas, texts, d.files, outputs)
  {
    hide SessionRun, RanAll;
  }

  lemma NewIsCoherent(files: map<string, string>, schemas: map<string, Schema>)
    requires UncutFiles(files, schemas)
    ensures Coherent(Database.Db(files, []), schemas)
  {
  }

  lemma CoherentIsUncut(db: Database.Db, schemas: map<string, Schema>)
    requires Coherent(db, schemas)
    ensures UncutFiles(db.files, schemas)
  {
  }

  /** A process: an executor made on the directory runs texts of any content. */
  method RunSession(disk: Disk, schemas: map<string, Schema>, texts: seq<string>)
    returns (executor: Executor, outputs: seq<seq<Output>>)
    requires GoodSchemas(schemas) && UncutFiles(disk.files, schemas)
    modifies disk
    ensures executor.Valid() && executor.disk == disk && executor.schemas == schemas
    ensures (executor.Db(), outputs) == SessionRun(Database.Db(old(disk.files), []), schemas, texts)
    ensures SessionRan(old(disk.files), schemas, texts, disk.files, outputs)
    ensures Coherent(executor.Db(), schemas)
  {
    ghost var states := SessionStates(Database.Db(disk.files, []), schemas, texts);
    SessionRanIs(states, disk.files, schemas, texts);
    hide SessionRan, RanAll;
    hide Coherent, GoodSchemas, UncutFiles, SessionRun, TextRun;
    executor := new Executor(schemas, disk);
    NewIsCoherent(disk.files, schemas);
    outputs := [];
    NoTexts(executor.Db(), schemas);
    for i := 0 to |texts|
      invariant executor.Valid() && fresh(executor.states.Repr()) && Coherent(executor.Db(), schemas)
      invariant (executor.Db(), outputs) == SessionRun(Database.Db(old(disk.files), []), schemas, texts[..i])
    {
      OneMoreText(Database.Db(old(disk.files), []), schemas, texts, i);
      var ok, output := RunSqlText(executor, texts[i]);
      outputs := outputs + [output];
    }
    assert texts[..|texts|] == texts;
  }

  lemma NoTexts(db: Database.Db, schemas: map<string, Schema>)
    ensures SessionRun(db, schemas, []) == (db, [])
  {
  }

  lemma OneMoreText(db: Database.Db, schemas: map<string, Schema>, texts: seq<string>, i: nat)
    requires i < |texts|
    ensures var (d, outputs) := SessionRun(db, schemas, texts[..i]);
            var (e, output) := TextRun(d, schemas, texts[i]);
            SessionRun(db, schemas, texts[..i + 1]) == (e, outputs + [output])
  {
    assert texts[..i + 1][..i] == texts[..i];
  }

  /** Any number of processes, one after the other: at the end of each the index of every
      table it used is the index of its file, and the next one can start from the files. */
  method RunSessions(disk: Disk, schemas: map<string, Schema>, sessions: seq<seq<string>>)
    returns (outputs: seq<seq<seq<Output>>>)
    requires GoodSchemas(schemas) && UncutFiles(disk.files, schemas)
    modifies disk
    ensures (disk.files, outputs) == SessionsRun(old(disk.files), schemas, sessions)
    ensures exists files | RanSessions(files, schemas, sessions, outputs) ::
              files[0] == old(disk.files) && files[|sessions|] == disk.files
    ensures UncutFiles(disk.files, schemas)
  {
    ghost var all := SessionsFiles(disk.files, schemas, sessions);
    assert |all| == |sessions| + 1;
    hide *;
    outputs := [];
    NoSessions(disk.files, schemas);
    for i := 0 to |sessions|
      invariant UncutFiles(disk.files, schemas)
      invariant (disk.files, outputs) == SessionsRun(old(disk.files), schemas, sessions[..i])
    {
      OneMoreSession(old(disk.files), schemas, sessions, i);
      var executor, output := RunSession(disk, schemas, sessions[i]);
      CoherentIsUncut(executor.Db(), schemas);
      FilesOf(executor);
      outputs := outputs + [output];
    }
    assert sessions[..|sessions|] == sessions;
  }

  lemma FilesOf(executor: Executor)
    ensures executor.Db().files == executor.disk.files
  {
  }

  lemma NoSessions(files: map<string, string>, schemas: map<string, Schema>)
    ensures SessionsRun(files, schemas, []) == (files, [])
  {
  }

  lemma OneMoreSession(files: map<string, string>, schemas: map<string, Schema>, sessions: seq<seq<string>>, i: nat)
    requires i < |sessions|
    ensures var (before, outputs) := SessionsRun(files, schemas, sessions[..i]);
            var (db, output) := SessionRun(Database.Db(before, []), schemas, sessions[i]);
            SessionsRun(files, schemas, sessions[..i + 1]) == (db.files, outputs + [output])
  {
    assert sessions[..i + 1][..i] == sessions[..i];
  }

  /** Whatever the processes run, a further one finds the files fit to start from, and at its
      end every index it has is the index of its file. */
  lemma {:induction false} SessionsAreCoherent(files: map<string, string>, schemas: map<string, Schema>,
                                               sessions: seq<seq<string>>, texts: seq<string>)
    requires GoodSchemas(schemas) && UncutFiles(files, schemas)
    ensures var before := SessionsRun(files, schemas, sessions).0;
            Coherent(SessionRun(Database.Db(before, []), schemas, texts).0, schemas)
    decreases |sessions|, |texts|
  {
    hide Coherent, UncutFiles, GoodSchemas, TextRun;
    if texts != [] {
      SessionsAreCoherent(files, schemas, sessions, texts[..|texts| - 1]);
      var before := SessionsRun(files, schemas, sessions).0;
      TextIsCoherent(SessionRun(Database.Db(before, []), schemas, texts[..|texts| - 1]).0, schemas, texts[|texts| - 1]);
    } else if sessions != [] {
      var n := |sessions| - 1;
      SessionsAreCoherent(files, schemas, sessions[..n], sessions[n]);
      var before := SessionsRun(files, schemas, sessions[..n]).0;
      CoherentIsUncut(SessionRun(Database.Db(before, []), schemas, sessions[n]).0, schemas);
      NewIsCoherent(SessionsRun(files, schemas, sessions).0, schemas);
    } else {
      NewIsCoherent(files, schemas);
    }
  }

  lemma {:induction false} TextIsCoherent(db: Database.Db, schemas: map<string, Schema>, sql: string)
    requires GoodSchemas(schemas) && Coherent(db, schemas)
    ensures Coherent(TextRun(db, schemas, sql).0, schemas)
  {
    hide Coherent, GoodSchemas, Read, ProgramRun;
    ReadMeans(sql);
    if Read(sql).Some? {
      ProgramIsCoherent(db, schemas, Read(sql).value);
    }
  }
}
