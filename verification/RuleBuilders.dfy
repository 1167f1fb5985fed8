// android/rule_builder.go: RuleBuilder, which collects commands and derives the rule's inputs and
// outputs from them.
module RuleBuilders {
  import opened Wrappers
  import opened Lists
  import opened Orders
  import opened RuleCommands

  /** The elements of a map's range, as a list sorted by path string. */
  method SortedPaths(paths: set<string>) returns (r: seq<string>)
    ensures StrictlySortedBy(r, Itself)
    ensures forall p :: p in r <==> p in paths
  {
    var list: seq<string> := [];
    var rest := paths;
    while rest != {}
      invariant rest <= paths
      invariant forall p :: p in list <==> p in paths && p !in rest
      invariant NoDuplicates(list)
      decreases |rest|
    {
      var p :| p in rest;
      list := list + [p];
      rest := rest - {p};
    }
    r := SortBy(list, Itself);
    assert DistinctKeys(list, Itself);
    DistinctKeysSortStrictly(list, Itself);
    forall p ensures p in r <==> p in list {
      SortMembers(list, Itself, p);
    }
  }

  // ----- what the commands read and write -----

  function OutputsOf(commands: seq<RuleBuilderCommand>): set<string>
    reads commands
  {
    set c, p | c in commands && p in c.outputs :: p
  }

  function DepFilesSet(commands: seq<RuleBuilderCommand>): set<string>
    reads commands
  {
    set c, p | c in commands && p in c.depFiles :: p
  }

  function ReadBy(commands: seq<RuleBuilderCommand>): set<string>
    reads commands
  {
    set c, p | c in commands && p in c.inputs + c.implicits :: p
  }

  /** What the commands read and no command of the rule writes. */
  function InputsOf(commands: seq<RuleBuilderCommand>): set<string>
    reads commands
  {
    ReadBy(commands) - OutputsOf(commands) - DepFilesSet(commands)
  }

  lemma {:induction false} InputsExactly(commands: seq<RuleBuilderCommand>)
    ensures forall p :: p in InputsOf(commands) <==>
      && (exists c :: c in commands && (p in c.inputs || p in c.implicits))
      && (forall c :: c in commands ==> p !in c.outputs && p !in c.depFiles)
  {
    forall p: string
      ensures p in ReadBy(commands) <==> exists c :: c in commands && (p in c.inputs || p in c.implicits)
    {
      assert forall c :: c in commands ==> (p in c.inputs + c.implicits <==> p in c.inputs || p in c.implicits);
    }
  }

  ghost function DepFilesOf(commands: seq<RuleBuilderCommand>): seq<string>
    reads commands
  {
    if commands == [] then [] else DepFilesOf(commands[..|commands| - 1]) + commands[|commands| - 1].depFiles
  }

  lemma {:induction false} DepFilesAreInSet(commands: seq<RuleBuilderCommand>)
    ensures forall p :: p in DepFilesOf(commands) <==> p in DepFilesSet(commands)
  {
    if commands != [] {
      DepFilesAreInSet(commands[..|commands| - 1]);
      assert commands == commands[..|commands| - 1] + [commands[|commands| - 1]];
    }
  }

  /** Command after command. */
  lemma {:induction false} DepFilesInTurn(a: seq<RuleBuilderCommand>, b: seq<RuleBuilderCommand>)
    ensures DepFilesOf(a + b) == DepFilesOf(a) + DepFilesOf(b)
    ensures |b| == 1 ==> DepFilesOf(b) == b[0].depFiles
    decreases |b|
  {
    if b == [] {
      assert a + b == a;
    } else {
      var n := |b| - 1;
      assert (a + b)[..|a + b| - 1] == a + b[..n];
      DepFilesInTurn(a, b[..n]);
    }
  }

  /** A further command that writes nothing and reads only depfiles changes none of the sets. */
  lemma {:induction false} ReaderOfDepFiles(commands: seq<RuleBuilderCommand>, c: RuleBuilderCommand)
    requires c.outputs == [] && c.depFiles == [] && c.implicits == []
    requires forall p :: p in c.inputs ==> p in DepFilesSet(commands)
    ensures OutputsOf(commands + [c]) == OutputsOf(commands)
    ensures DepFilesSet(commands + [c]) == DepFilesSet(commands)
    ensures InputsOf(commands + [c]) == InputsOf(commands)
  {
    var all := commands + [c];
    assert forall d :: d in all <==> d in commands || d == c;
    assert OutputsOf(all) == OutputsOf(commands);
    assert DepFilesSet(all) == DepFilesSet(commands);
    assert c.inputs + c.implicits == c.inputs;
    assert forall p :: p in ReadBy(all) ==> p in ReadBy(commands) || p in c.inputs;
    assert forall p :: p in ReadBy(commands) ==> p in ReadBy(all);
  }

  datatype SboxOutcome = SboxOk | PanicTwice | PanicAfterCommand | PanicRestat

  class RuleBuilder {
    var commands: seq<RuleBuilderCommand>
    var temporaries: set<string>
    var restat: bool
    var sbox: bool
    var sboxOutDir: string

    constructor ()
      ensures Valid()
      ensures commands == [] && !restat && !sbox && temporaries == {}
    {
      commands, temporaries, restat, sbox, sboxOutDir := [], {}, false, false, "";
    }

    /** Not both sbox and restat; every command has the builder's sbox flag and directory. */
    ghost predicate Valid()
      reads this, commands
    {
      && !(sbox && restat)
      && (forall c :: c in commands ==> c.Valid() && c.sbox == sbox && c.sboxOutDir == sboxOutDir)
    }

    /** Panics (ok is false) after Sbox. */
    method Restat() returns (ok: bool)
      requires Valid()
      modifies `restat
      ensures Valid()
      ensures ok == !sbox && restat == (old(restat) || ok)
    {
      if sbox {
        return false;
      }
      restat := true;
      return true;
    }

    method Sbox(outputDir: string) returns (o: SboxOutcome)
      requires Valid()
      modifies `sbox, `sboxOutDir
      ensures Valid()
      ensures o == if old(sbox) then PanicTwice else if commands != [] then PanicAfterCommand
                   else if restat then PanicRestat else SboxOk
      ensures o == SboxOk ==> sbox && sboxOutDir == outputDir
      ensures o != SboxOk ==> sbox == old(sbox) && sboxOutDir == old(sboxOutDir)
    {
      if sbox {
        return PanicTwice;
      }
      if |commands| > 0 {
        return PanicAfterCommand;
      }
      if restat {
        return PanicRestat;
      }
      sbox := true;
      sboxOutDir := outputDir;
      return SboxOk;
    }

    method Command() returns (c: RuleBuilderCommand)
      requires Valid()
      modifies `commands
      ensures Valid()
      ensures fresh(c) && commands == old(commands) + [c]
      ensures c.buf == "" && c.inputs == c.implicits == c.outputs == c.depFiles == c.tools == []
      ensures c.rspFileInputs == None && c.unescapedSpans == []
    {
      c := new RuleBuilderCommand(sbox, sboxOutDir);
      commands := commands + [c];
    }

    method Temporary(path: string)
      requires Valid()
      modifies `temporaries
      ensures Valid()
      ensures temporaries == old(temporaries) + {path}
    {
      temporaries := temporaries + {path};
    }

    method Inputs() returns (r: seq<string>)
      requires Valid()
      ensures StrictlySortedBy(r, Itself)
      ensures forall p :: p in r <==>
        && (exists c :: c in commands && (p in c.inputs || p in c.implicits))
        && (forall c :: c in commands ==> p !in c.outputs && p !in c.depFiles)
      ensures forall p :: p in r <==> p in InputsOf(commands)
    {
      var outputs := OutputsOf(commands);
      var depFiles := DepFilesSet(commands);
      var inputs := {};
      for i := 0 to |commands|
        invariant inputs == ReadBy(commands[..i]) - outputs - depFiles
      {
        var c := commands[i];
        assert commands[..i + 1] == commands[..i] + [c];
        inputs := inputs + set p | p in c.inputs + c.implicits && p !in outputs && p !in depFiles;
      }
      assert commands[..|commands|] == commands;
      assert inputs == InputsOf(commands);
      InputsExactly(commands);
      r := SortedPaths(inputs);
    }

    method Outputs() returns (r: seq<string>)
      requires Valid()
      ensures StrictlySortedBy(r, Itself)
      ensures forall p :: p in r <==> (exists c :: c in commands && p in c.outputs) && p !in temporaries
    {
      r := SortedPaths(OutputsOf(commands) - temporaries);
      assert forall p :: p in OutputsOf(commands) <==> exists c :: c in commands && p in c.outputs;
    }

    method DepFiles() returns (r: seq<string>)
      requires Valid()
      ensures r == DepFilesOf(commands)
    {
      r := [];
      for i := 0 to |commands|
        invariant r == DepFilesOf(commands[..i])
      {
        assert commands[..i + 1][..i] == commands[..i];
        r := r + commands[i].depFiles;
      }
      assert commands[..|commands|] == commands;
    }

    /** The depfile part of Build: several depfiles are merged by one more command. */
    method MergeDepFiles(depFixer: string) returns (depFile: Option<string>)
      requires Valid()
      modifies `commands
      ensures Valid()
      ensures var depFiles := old(DepFilesOf(commands));
              && depFile == (if depFiles == [] then None else Some(depFiles[0]))
              && (|depFiles| <= 1 ==> commands == old(commands))
              && (|depFiles| > 1 ==>
                   && |commands| == |old(commands)| + 1 && old(commands) <= commands
                   && commands[|old(commands)|].buf == AppendedInputs(depFixer, sbox, sboxOutDir, depFiles))
      ensures InputsOf(commands) == old(InputsOf(commands))
      ensures OutputsOf(commands) == old(OutputsOf(commands)) && DepFilesSet(commands) == old(DepFilesSet(commands))
    {
      var depFiles := DepFiles();
      if |depFiles| == 0 {
        return None;
      }
      if |depFiles| > 1 {
        ghost var before := commands;
        var c := DepFileMergerCmd(depFixer, depFiles);
        DepFilesAreInSet(before);
        RecordedExactly(sbox, sboxOutDir, depFiles);
        ReaderOfDepFiles(before, c);
      }
      return Some(depFiles[0]);
    }

    method DepFileMergerCmd(depFixer: string, depFiles: seq<string>) returns (c: RuleBuilderCommand)
      requires Valid()
      modifies `commands
      ensures Valid()
      ensures fresh(c) && commands == old(commands) + [c]
      ensures c.outputs == c.depFiles == c.implicits == [] && c.tools == [depFixer]
      ensures c.inputs == Recorded(sbox, sboxOutDir, depFiles)
      ensures c.buf == AppendedInputs(depFixer, sbox, sboxOutDir, depFiles)
    {
      c := Command();
      c.Tool(depFixer);
      c.Inputs(depFiles);
    }
  }
}
