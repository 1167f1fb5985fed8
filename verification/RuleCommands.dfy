// android/rule_builder.go: RuleBuilderCommand.  Its methods only append to the command line; the
// spans recorded on the way are left alone when the finished line is escaped for ninja.
module RuleCommands {
  import opened Wrappers
  import opened Lists
  import opened Ninja
  import opened CleanPaths
  import opened RelativePaths

  datatype Span = Span(start: nat, end: nat)

  const RspFile := "$out.rsp"

  /** The spans lie in `s` one after the other, and each reads "$out.rsp". */
  ghost predicate SpansOk(s: string, spans: seq<Span>) {
    && (forall i :: 0 <= i < |spans| ==> SpanOk(s, spans[i]))
    && (forall i, j :: 0 <= i < j < |spans| ==> spans[i].end <= spans[j].start)
  }

  ghost predicate SpanOk(s: string, span: Span) {
    span.start <= span.end <= |s| && s[span.start..span.end] == RspFile
  }

  lemma {:induction false} AppendKeepsSpans(s: string, spans: seq<Span>, t: string)
    requires SpansOk(s, spans)
    ensures SpansOk(s + t, spans)
  {
    forall i | 0 <= i < |spans| ensures SpanOk(s + t, spans[i]) {
      assert SpanOk(s, spans[i]);
      assert (s + t)[spans[i].start..spans[i].end] == s[spans[i].start..spans[i].end];
    }
  }

  lemma {:induction false} AppendAddsSpan(s: string, spans: seq<Span>, t: string)
    requires SpansOk(s, spans)
    ensures SpansOk(s + t + RspFile, spans + [Span(|s + t|, |s + t + RspFile|)])
  {
    var whole := s + t + RspFile;
    var spans' := spans + [Span(|s + t|, |whole|)];
    assert whole == s + (t + RspFile);
    AppendKeepsSpans(s, spans, t + RspFile);
    assert whole[|s + t|..|whole|] == RspFile;
    forall i | 0 <= i < |spans'| ensures SpanOk(whole, spans'[i]) {
      assert i < |spans| ==> SpanOk(whole, spans[i]);
    }
    forall i, j | 0 <= i < j < |spans'| ensures spans'[i].end <= spans'[j].start {
      assert SpanOk(s, spans[i]);
    }
  }

  // ----- ninjaEscapeExceptForSpans -----

  /** Everything from `i` on is escaped, but for the spans. */
  function EscapeAround(s: string, i: nat, spans: seq<Span>): string
    requires i <= |s| && InOrder(s, i, spans)
    decreases |spans|
  {
    if spans == [] then Escape(s[i..])
    else Escape(s[i..spans[0].start]) + s[spans[0].start..spans[0].end] + EscapeAround(s, spans[0].end, spans[1..])
  }

  predicate InOrder(s: string, i: nat, spans: seq<Span>)
    decreases |spans|
  {
    spans != [] ==> i <= spans[0].start <= spans[0].end <= |s| && InOrder(s, spans[0].end, spans[1..])
  }

  lemma {:induction false} SpansInOrder(s: string, i: nat, spans: seq<Span>)
    requires SpansOk(s, spans) && (spans != [] ==> i <= spans[0].start)
    ensures InOrder(s, i, spans)
    decreases |spans|
  {
    if spans != [] {
      assert SpanOk(s, spans[0]);
      forall j | 0 <= j < |spans[1..]| ensures SpanOk(s, spans[1..][j]) {
        assert SpanOk(s, spans[j + 1]);
      }
      SpansInOrder(s, spans[0].end, spans[1..]);
    }
  }

  lemma {:induction false} EscapeOneSpan(s: string, i: nat, spans: seq<Span>, k: nat, done: string)
    requires i <= |s| && k < |spans| && InOrder(s, i, spans[k..])
    ensures i <= spans[k].start <= spans[k].end <= |s| && InOrder(s, spans[k].end, spans[k + 1..])
    ensures done + EscapeAround(s, i, spans[k..]) ==
      done + Escape(s[i..spans[k].start]) + s[spans[k].start..spans[k].end] + EscapeAround(s, spans[k].end, spans[k + 1..])
  {
    assert spans[k..][0] == spans[k] && spans[k..][1..] == spans[k + 1..];
    var a, b := Escape(s[i..spans[k].start]), s[spans[k].start..spans[k].end];
    var c := EscapeAround(s, spans[k].end, spans[k + 1..]);
    assert done + (a + b + c) == done + a + b + c;
  }

  method NinjaEscapeExceptForSpans(s: string, spans: seq<Span>) returns (r: string)
    requires InOrder(s, 0, spans)
    ensures r == EscapeAround(s, 0, spans)
  {
    if |spans| == 0 {
      assert s[0..] == s;
      return Escape(s);
    }
    r := "";
    var i: nat := 0;
    for k := 0 to |spans|
      invariant i <= |s| && InOrder(s, i, spans[k..])
      invariant r + EscapeAround(s, i, spans[k..]) == EscapeAround(s, 0, spans)
    {
      EscapeOneSpan(s, i, spans, k, r);
      r := r + Escape(s[i..spans[k].start]);
      r := r + s[spans[k].start..spans[k].end];
      i := spans[k].end;
    }
    r := r + Escape(s[i..]);
  }

  // ----- what ninja makes of it -----

  /** The raw text with the value of $out in the spans, and only there. */
  function WithOut(s: string, i: nat, spans: seq<Span>, out: string): string
    requires i <= |s| && InOrder(s, i, spans)
    decreases |spans|
  {
    if spans == [] then s[i..]
    else s[i..spans[0].start] + (out + ".rsp") + WithOut(s, spans[0].end, spans[1..], out)
  }

  lemma {:induction false} EvalRspFile(rest: string, env: string -> string)
    ensures Eval(RspFile + rest, env) == Prepend(env("out") + ".rsp", Eval(rest, env))
  {
    var t := ".rsp" + rest;
    assert RspFile + rest == "$" + "out" + t;
    EvalBare("out", t, env);
    EscapeOfPlain(".rsp");
    EvalEscaped(".rsp", rest, env);
    PrependConcat(env("out"), ".rsp", Eval(rest, env));
  }

  /** Ninja evaluates the escaped line to the raw line with $out expanded in the spans alone. */
  lemma {:induction false} EvalEscapedAround(s: string, i: nat, spans: seq<Span>, env: string -> string)
    requires i <= |s| && InOrder(s, i, spans)
    requires forall j :: 0 <= j < |spans| ==> SpanOk(s, spans[j])
    ensures Eval(EscapeAround(s, i, spans), env) == Some(WithOut(s, i, spans, env("out")))
    decreases |spans|
  {
    if spans == [] {
      EvalEscaped(s[i..], "", env);
      assert Escape(s[i..]) + "" == Escape(s[i..]) && s[i..] + "" == s[i..];
    } else {
      var a, b := spans[0].start, spans[0].end;
      var rest := EscapeAround(s, b, spans[1..]);
      assert SpanOk(s, spans[0]);
      forall j | 0 <= j < |spans[1..]| ensures SpanOk(s, spans[1..][j]) {
        assert SpanOk(s, spans[j + 1]);
      }
      EvalEscapedAround(s, b, spans[1..], env);
      EvalAroundOne(s[i..a], rest, WithOut(s, b, spans[1..], env("out")), env);
    }
  }

  lemma {:induction false} EvalAroundOne(head: string, rest: string, tail: string, env: string -> string)
    requires Eval(rest, env) == Some(tail)
    ensures Eval(Escape(head) + RspFile + rest, env) == Some(head + (env("out") + ".rsp") + tail)
  {
    EvalRspFile(rest, env);
    EvalEscaped(head, RspFile + rest, env);
    assert Escape(head) + RspFile + rest == Escape(head) + (RspFile + rest);
    PrependConcat(head, env("out") + ".rsp", Some(tail));
  }

  // ----- the command -----

  const SboxOutDir := "__SBOX_OUT_DIR__"

  /** A path that sbox moves to its own output directory. */
  predicate InSbox(sbox: bool, sboxOutDir: string, path: string) {
    sbox && MaybeRel(sboxOutDir, path).Some?
  }

  function InputText(sbox: bool, sboxOutDir: string, path: string): string {
    if InSbox(sbox, sboxOutDir, path) then SboxOutDir + "/" + MaybeRel(sboxOutDir, path).value else path
  }

  function OutputText(sbox: bool, sboxOutDir: string, path: string): string {
    if !sbox then path
    else SboxOutDir + "/" + (if InSbox(sbox, sboxOutDir, path) then MaybeRel(sboxOutDir, path).value else "")
  }

  /** Texts are separated by one space. */
  function Appended(buf: string, text: string): string {
    if buf == "" then text else buf + " " + text
  }

  function AppendedInputs(buf: string, sbox: bool, sboxOutDir: string, paths: seq<string>): string {
    if paths == [] then buf
    else Appended(AppendedInputs(buf, sbox, sboxOutDir, paths[..|paths| - 1]), InputText(sbox, sboxOutDir, paths[|paths| - 1]))
  }

  /** The inputs that are dependencies of the rule. */
  function Recorded(sbox: bool, sboxOutDir: string, paths: seq<string>): seq<string> {
    Filter(paths, OutsideSbox(sbox, sboxOutDir))
  }

  function OutsideSbox(sbox: bool, sboxOutDir: string): string -> bool {
    path => !InSbox(sbox, sboxOutDir, path)
  }

  lemma {:induction false} RecordedOne(sbox: bool, sboxOutDir: string, path: string)
    ensures Recorded(sbox, sboxOutDir, [path]) == if InSbox(sbox, sboxOutDir, path) then [] else [path]
  {
    assert Filter([path][1..], OutsideSbox(sbox, sboxOutDir)) == [];
  }

  lemma {:induction false} OneMoreInput(
      inputs: seq<string>, buf: string, sbox: bool, sboxOutDir: string, paths: seq<string>, path: string)
    ensures inputs + Recorded(sbox, sboxOutDir, paths + [path]) ==
      inputs + Recorded(sbox, sboxOutDir, paths) + Recorded(sbox, sboxOutDir, [path])
    ensures AppendedInputs(buf, sbox, sboxOutDir, paths + [path]) ==
      Appended(AppendedInputs(buf, sbox, sboxOutDir, paths), InputText(sbox, sboxOutDir, path))
  {
    FilterConcat(paths, [path], OutsideSbox(sbox, sboxOutDir));
    assert (paths + [path])[..|paths|] == paths;
  }

  // ----- what the sandboxed texts denote -----

  /** The path that a text names, with the placeholder read as the sbox directory. */
  function Unboxed(sboxOutDir: string, text: string): string {
    if SboxOutDir + "/" <= text then WithRel(sboxOutDir, text[|SboxOutDir| + 1..]) else Clean(text)
  }

  /** On a command line, with or without a sandbox, the text names the path. */
  ghost predicate Denotes(sbox: bool, sboxOutDir: string, text: string, path: string) {
    if sbox then Unboxed(sboxOutDir, text) == Clean(path) else text == path
  }

  lemma {:induction false} InSboxExactly(sbox: bool, sboxOutDir: string, path: string)
    ensures InSbox(sbox, sboxOutDir, path) <==> sbox && Inside(sboxOutDir, path)
  {
    MaybeRelExactly(sboxOutDir, path);
  }

  /** Exactly the paths outside the sbox directory are recorded. */
  lemma {:induction false} RecordedExactly(sbox: bool, sboxOutDir: string, paths: seq<string>)
    ensures forall p :: p in Recorded(sbox, sboxOutDir, paths) <==> p in paths && !(sbox && Inside(sboxOutDir, p))
  {
    FilterMembers(paths, OutsideSbox(sbox, sboxOutDir));
    forall p: string ensures InSbox(sbox, sboxOutDir, p) <==> sbox && Inside(sboxOutDir, p) {
      InSboxExactly(sbox, sboxOutDir, p);
    }
  }

  lemma {:induction false} UnboxedRel(sboxOutDir: string, rel: string)
    ensures Unboxed(sboxOutDir, SboxOutDir + "/" + rel) == WithRel(sboxOutDir, rel)
  {
    var prefix := SboxOutDir + "/";
    assert (prefix + rel)[|prefix|..] == rel;
  }

  /** A rewritten input names the path it was made of; any other input is left as it is. */
  lemma {:induction false} InputTextDenotes(sbox: bool, sboxOutDir: string, path: string)
    ensures sbox && Inside(sboxOutDir, path) ==>
      Unboxed(sboxOutDir, InputText(sbox, sboxOutDir, path)) == Clean(path)
    ensures !(sbox && Inside(sboxOutDir, path)) ==> InputText(sbox, sboxOutDir, path) == path
  {
    InSboxExactly(sbox, sboxOutDir, path);
    if InSbox(sbox, sboxOutDir, path) {
      RelLeadsToTarget(sboxOutDir, path);
      UnboxedRel(sboxOutDir, MaybeRel(sboxOutDir, path).value);
    }
  }

  /** In a sandbox the text of an output names the output if and only if that is inside. */
  lemma {:induction false} OutputTextDenotes(sbox: bool, sboxOutDir: string, path: string)
    ensures !sbox ==> OutputText(sbox, sboxOutDir, path) == path
    ensures sbox ==>
      (Unboxed(sboxOutDir, OutputText(sbox, sboxOutDir, path)) == Clean(path) <==> Inside(sboxOutDir, path))
    ensures sbox && !Inside(sboxOutDir, path) ==> OutputText(sbox, sboxOutDir, path) == "__SBOX_OUT_DIR__/"
  {
    if sbox {
      InSboxExactly(sbox, sboxOutDir, path);
      if InSbox(sbox, sboxOutDir, path) {
        RelLeadsToTarget(sboxOutDir, path);
        UnboxedRel(sboxOutDir, MaybeRel(sboxOutDir, path).value);
      } else {
        UnboxedRel(sboxOutDir, "");
        assert SboxOutDir + "/" + "" == "__SBOX_OUT_DIR__/";
        EmptyHasNoElements();
        assert WithRel(sboxOutDir, "") == Clean(path) ==> LeadsTo(sboxOutDir, "", path);
      }
    }
  }

  /** An output outside the directory is written as the directory itself. */
  lemma {:induction false} OutputOutsideSbox()
    ensures !Inside("out", "a")
    ensures OutputText(true, "out", "a") == "__SBOX_OUT_DIR__/"
    ensures Unboxed("out", OutputText(true, "out", "a")) == "out"
  {
    OneElement("out");
    OneElement("a");
    assert !(["out"] <= ["a"]) by {
      assert ["out"][0] != ["a"][0];
    }
    InSboxExactly(true, "out", "a");
    UnboxedRel("out", "");
    assert SboxOutDir + "/" + "" == "__SBOX_OUT_DIR__/";
    NonEmptyPair("out", "");
    assert NonEmpty(["out", ""]) == ["out"];
    assert JoinSlash(["out"]) == "out";
    assert Render(false, ["out"]) == "out";
  }

  lemma {:induction false} OneElement(e: string)
    requires Plain(e) && e != ".."
    ensures Elements(e) == [e] && !Rooted(e)
  {
    SplitWhole(e);
    assert e[0] in e;
    assert Push(false, [], e) == [e];
    assert PushAll(false, [e], [e][1..]) == [e];
    assert PushAll(false, [], [e]) == PushAll(false, Push(false, [], [e][0]), [e][1..]);
  }

  /** A path is given by its string form. */
  class RuleBuilderCommand {
    var buf: string
    var inputs: seq<string>
    var implicits: seq<string>
    var outputs: seq<string>
    var depFiles: seq<string>
    var tools: seq<string>
    var rspFileInputs: Option<seq<string>>
    var unescapedSpans: seq<Span>
    const sbox: bool
    const sboxOutDir: string

    constructor (sbox: bool, sboxOutDir: string)
      ensures Valid()
      ensures this.sbox == sbox && this.sboxOutDir == sboxOutDir
      ensures buf == "" && inputs == implicits == outputs == depFiles == tools == []
      ensures rspFileInputs == None && unescapedSpans == []
    {
      this.sbox, this.sboxOutDir := sbox, sboxOutDir;
      buf, inputs, implicits, outputs, depFiles, tools := "", [], [], [], [], [];
      rspFileInputs, unescapedSpans := None, [];
    }

    /** The recorded spans stay in bounds, ordered and disjoint, and read "$out.rsp". */
    ghost predicate Valid()
      reads this
    {
      && SpansOk(buf, unescapedSpans)
      && (rspFileInputs.None? ==> unescapedSpans == [])
      && |unescapedSpans| <= 1
    }

    method Text(text: string)
      requires Valid()
      modifies `buf
      ensures Valid()
      ensures buf == Appended(old(buf), text)
    {
      AppendKeepsSpans(buf, unescapedSpans, " " + text);
      AppendKeepsSpans(buf, unescapedSpans, text);
      assert buf + " " + text == buf + (" " + text);
      assert buf == "" ==> buf + text == text;
      if |buf| > 0 {
        buf := buf + " ";
      }
      buf := buf + text;
    }

    method Tool(path: string)
      requires Valid()
      modifies `buf, `tools
      ensures Valid()
      ensures tools == old(tools) + [path] && buf == Appended(old(buf), path)
    {
      tools := tools + [path];
      Text(path);
    }

    /** A path under the sbox output directory is rewritten and not recorded as an input. */
    method AddInput(path: string) returns (text: string)
      modifies `inputs
      ensures text == InputText(sbox, sboxOutDir, path)
      ensures inputs == if sbox && Inside(sboxOutDir, path) then old(inputs) else old(inputs) + [path]
      ensures if sbox && Inside(sboxOutDir, path) then Unboxed(sboxOutDir, text) == Clean(path) else text == path
    {
      InSboxExactly(sbox, sboxOutDir, path);
      InputTextDenotes(sbox, sboxOutDir, path);
      if sbox {
        var rel := MaybeRel(sboxOutDir, path);
        if rel.Some? {
          return SboxOutDir + "/" + rel.value;
        }
      }
      inputs := inputs + [path];
      return path;
    }

    method Input(path: string)
      requires Valid()
      modifies `inputs, `buf
      ensures Valid()
      ensures inputs == old(inputs) + Recorded(sbox, sboxOutDir, [path])
      ensures buf == Appended(old(buf), InputText(sbox, sboxOutDir, path))
    {
      InSboxExactly(sbox, sboxOutDir, path);
      RecordedOne(sbox, sboxOutDir, path);
      var text := AddInput(path);
      Text(text);
    }

    method Inputs(paths: seq<string>)
      requires Valid()
      modifies `inputs, `buf
      ensures Valid()
      ensures inputs == old(inputs) + Recorded(sbox, sboxOutDir, paths)
      ensures buf == AppendedInputs(old(buf), sbox, sboxOutDir, paths)
    {
      for i := 0 to |paths|
        invariant Valid()
        invariant inputs == old(inputs) + Recorded(sbox, sboxOutDir, paths[..i])
        invariant buf == AppendedInputs(old(buf), sbox, sboxOutDir, paths[..i])
      {
        OneMoreInput(old(inputs), old(buf), sbox, sboxOutDir, paths[..i], paths[i]);
        assert paths[..i + 1] == paths[..i] + [paths[i]];
        Input(paths[i]);
      }
      assert paths[..|paths|] == paths;
    }

    method Implicit(path: string)
      requires Valid()
      modifies `implicits
      ensures Valid()
      ensures implicits == if sbox && Inside(sboxOutDir, path) then old(implicits) else old(implicits) + [path]
    {
      InSboxExactly(sbox, sboxOutDir, path);
      if sbox {
        var rel := MaybeRel(sboxOutDir, path);
        if rel.Some? {
          return;
        }
      }
      implicits := implicits + [path];
    }

    method Output(path: string)
      requires Valid()
      modifies `outputs, `buf
      ensures Valid()
      ensures outputs == old(outputs) + [path] && buf == Appended(old(buf), OutputText(sbox, sboxOutDir, path))
      ensures !sbox || Inside(sboxOutDir, path) ==> Denotes(sbox, sboxOutDir, OutputText(sbox, sboxOutDir, path), path)
    {
      OutputTextDenotes(sbox, sboxOutDir, path);
      outputs := outputs + [path];
      Text(OutputText(sbox, sboxOutDir, path));
    }

    method DepFile(path: string)
      requires Valid()
      modifies `depFiles, `buf
      ensures Valid()
      ensures depFiles == old(depFiles) + [path] && buf == Appended(old(buf), OutputText(sbox, sboxOutDir, path))
      ensures !sbox || Inside(sboxOutDir, path) ==> Denotes(sbox, sboxOutDir, OutputText(sbox, sboxOutDir, path), path)
    {
      OutputTextDenotes(sbox, sboxOutDir, path);
      depFiles := depFiles + [path];
      Text(OutputText(sbox, sboxOutDir, path));
    }

    /** Panics (ok is false) if it was called before on this command. */
    method FlagWithRspFileInputList(flag: string, paths: seq<string>) returns (ok: bool)
      requires Valid()
      modifies `rspFileInputs, `buf, `unescapedSpans
      ensures Valid()
      ensures ok == old(rspFileInputs).None?
      ensures !ok ==> unchanged(this)
      ensures ok ==> rspFileInputs == Some(paths)
      ensures ok ==> buf == Appended(old(buf), flag + RspFile)
      ensures ok ==> unescapedSpans == [Span(|buf| - |RspFile|, |buf|)]
    {
      if rspFileInputs.Some? {
        return false;
      }
      var before := if buf == "" then flag else " " + flag;
      AppendAddsSpan(buf, unescapedSpans, before);
      rspFileInputs := Some(paths);
      Text(flag + RspFile);
      assert buf == old(buf) + before + RspFile;
      unescapedSpans := unescapedSpans + [Span(|buf| - |RspFile|, |buf|)];
      return true;
    }

    /** For ninja the line means the raw line, with $out expanded where the rsp file is named. */
    method NinjaEscapedString() returns (r: string)
      requires Valid()
      ensures InOrder(buf, 0, unescapedSpans)
      ensures forall env: string -> string :: Eval(r, env) == Some(WithOut(buf, 0, unescapedSpans, env("out")))
    {
      SpansInOrder(buf, 0, unescapedSpans);
      r := NinjaEscapeExceptForSpans(buf, unescapedSpans);
      forall env: string -> string ensures Eval(r, env) == Some(WithOut(buf, 0, unescapedSpans, env("out"))) {
        EvalEscapedAround(buf, 0, unescapedSpans, env);
      }
    }
  }
}
