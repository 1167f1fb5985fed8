// The ninja side of android/rule_builder.go and android/expand.go: escaping by doubling dollar
// signs, the replacer of android/makevars.go that undoes it, and what ninja makes of a string.
module Ninja {
  import opened Wrappers

  /** proptools.NinjaEscape. */
  function Escape(s: string): string {
    if s == [] then [] else (if s[0] == '$' then "$$" else [s[0]]) + Escape(s[1..])
  }

  /** ninjaDescaper, strings.NewReplacer("$$", "$"). */
  function Descape(s: string): string {
    if s == [] then []
    else if |s| > 1 && s[0] == '$' && s[1] == '$' then "$" + Descape(s[2..])
    else [s[0]] + Descape(s[1..])
  }

  // ----- evaluation -----

  predicate IsVarChar(c: char) {
    'a' <= c <= 'z' || 'A' <= c <= 'Z' || '0' <= c <= '9' || c == '_' || c == '-'
  }

  /** The number of leading characters that may stand in a bare variable name. */
  function VarLength(s: string): (n: nat)
    ensures n <= |s|
  {
    if s != [] && IsVarChar(s[0]) then 1 + VarLength(s[1..]) else 0
  }

  /** The number of characters before the first closing brace, or |s|. */
  function BraceLength(s: string): (n: nat)
    ensures n <= |s|
  {
    if s != [] && s[0] != '}' then 1 + BraceLength(s[1..]) else 0
  }

  function Prepend(s: string, rest: Option<string>): Option<string> {
    match rest
    case None => None
    case Some(t) => Some(s + t)
  }

  /**
   * Evaluation with the variables of `env`: $$ is a dollar sign, $name and ${name} are variables;
   * any other use of a dollar sign is an error here.
   */
  function Eval(s: string, env: string -> string): Option<string>
    decreases |s|
  {
    if s == [] then Some([])
    else if s[0] != '$' then Prepend([s[0]], Eval(s[1..], env))
    else if |s| == 1 then None
    else if s[1] == '$' then Prepend("$", Eval(s[2..], env))
    else if s[1] == '{' then
      var n := BraceLength(s[2..]);
      if n == 0 || 2 + n == |s| then None else Prepend(env(s[2..2 + n]), Eval(s[3 + n..], env))
    else
      var n := VarLength(s[1..]);
      if n == 0 then None else Prepend(env(s[1..1 + n]), Eval(s[1 + n..], env))
  }

  // ----- escaping preserves meaning -----

  lemma {:induction false} EscapeConcat(a: string, b: string)
    ensures Escape(a + b) == Escape(a) + Escape(b)
  {
    if a == [] {
      assert a + b == b;
    } else {
      assert (a + b)[0] == a[0] && (a + b)[1..] == a[1..] + b;
      EscapeConcat(a[1..], b);
    }
  }

  lemma {:induction false} EscapeOfPlain(s: string)
    requires '$' !in s
    ensures Escape(s) == s
  {
    if s != [] {
      EscapeOfPlain(s[1..]);
    }
  }

  lemma {:induction false} DescapeUndoesEscape(s: string)
    ensures Descape(Escape(s)) == s
  {
    if s != [] {
      var e := Escape(s[1..]);
      DescapeUndoesEscape(s[1..]);
      if s[0] == '$' {
        assert ("$$" + e)[2..] == e;
      } else {
        assert ([s[0]] + e)[1..] == e;
      }
      assert s == [s[0]] + s[1..];
    }
  }

  lemma {:induction false} EvalDollars(rest: string, env: string -> string)
    ensures Eval("$$" + rest, env) == Prepend("$", Eval(rest, env))
  {
    assert ("$$" + rest)[2..] == rest;
  }

  lemma {:induction false} EvalChar(c: char, rest: string, env: string -> string)
    requires c != '$'
    ensures Eval([c] + rest, env) == Prepend([c], Eval(rest, env))
  {
    assert ([c] + rest)[1..] == rest;
  }

  /** Escaped text evaluates to itself, whatever follows it. */
  lemma {:induction false} EvalEscaped(a: string, b: string, env: string -> string)
    ensures Eval(Escape(a) + b, env) == Prepend(a, Eval(b, env))
    decreases |a|
  {
    if a == [] {
      assert Escape(a) + b == b;
      assert Eval(b, env).Some? ==> [] + Eval(b, env).value == Eval(b, env).value;
    } else {
      var rest := Escape(a[1..]) + b;
      EvalEscaped(a[1..], b, env);
      PrependConcat([a[0]], a[1..], Eval(b, env));
      assert [a[0]] + a[1..] == a;
      if a[0] == '$' {
        assert Escape(a) + b == "$$" + rest;
        EvalDollars(rest, env);
      } else {
        assert Escape(a) + b == [a[0]] + rest;
        EvalChar(a[0], rest, env);
      }
    }
  }

  lemma {:induction false} PrependConcat(a: string, b: string, rest: Option<string>)
    ensures Prepend(a, Prepend(b, rest)) == Prepend(a + b, rest)
  {
    if rest.Some? {
      assert a + (b + rest.value) == (a + b) + rest.value;
    }
  }

  // ----- text that may be followed by anything -----

  /** `v` evaluates, and what follows it does not change how. */
  ghost predicate Delimited(v: string, env: string -> string) {
    && Eval(v, env).Some?
    && forall t: string :: Eval(v + t, env) == Prepend(Eval(v, env).value, Eval(t, env))
  }

  lemma {:induction false} BraceLengthOf(name: string, t: string)
    requires '}' !in name
    ensures BraceLength(name + "}" + t) == |name|
  {
    var s := name + "}" + t;
    if name != [] {
      assert name[0] in name;
      assert s[0] == name[0] && s[1..] == name[1..] + "}" + t;
      BraceLengthOf(name[1..], t);
    } else {
      assert s[0] == '}';
    }
  }

  lemma {:induction false} EvalBraced(name: string, t: string, env: string -> string)
    requires name != [] && '}' !in name
    ensures Eval("${" + name + "}" + t, env) == Prepend(env(name), Eval(t, env))
  {
    var s := "${" + name + "}" + t;
    BraceLengthOf(name, t);
    assert s[2..] == name + "}" + t;
    assert s[2..2 + |name|] == name;
    assert s[3 + |name|..] == t;
  }

  /** A variable in braces is delimited ... */
  lemma {:induction false} BracedIsDelimited(name: string, env: string -> string)
    requires name != [] && '}' !in name
    ensures Delimited("${" + name + "}", env) && Eval("${" + name + "}", env) == Some(env(name))
  {
    var v := "${" + name + "}";
    EvalBraced(name, "", env);
    assert v + "" == v;
    assert env(name) + "" == env(name);
    forall t: string ensures Eval(v + t, env) == Prepend(env(name), Eval(t, env)) {
      EvalBraced(name, t, env);
    }
  }

  ghost predicate IsVarName(name: string) {
    name != [] && forall i :: 0 <= i < |name| ==> IsVarChar(name[i])
  }

  lemma {:induction false} VarLengthOf(name: string, t: string)
    requires forall i :: 0 <= i < |name| ==> IsVarChar(name[i])
    requires t != [] ==> !IsVarChar(t[0])
    ensures VarLength(name + t) == |name|
  {
    if name == [] {
      assert name + t == t;
    } else {
      assert (name + t)[0] == name[0] && (name + t)[1..] == name[1..] + t;
      VarLengthOf(name[1..], t);
    }
  }

  /** A bare variable ends where the next character cannot belong to its name. */
  lemma {:induction false} EvalBare(name: string, t: string, env: string -> string)
    requires IsVarName(name) && (t != [] ==> !IsVarChar(t[0]))
    ensures Eval("$" + name + t, env) == Prepend(env(name), Eval(t, env))
  {
    var s := "$" + name + t;
    VarLengthOf(name, t);
    assert s[1..] == name + t;
    assert s[1] == name[0];
    assert s[1..1 + |name|] == name;
    assert s[1 + |name|..] == t;
  }

  /** ... a bare one is not: "$in" followed by "x" names the variable "inx". */
  lemma {:induction false} BareIsNotDelimited(env: string -> string)
    requires env("in") + "x" != env("inx")
    ensures Eval("$in", env) == Some(env("in")) && !Delimited("$in", env)
  {
    EvalBare("in", "", env);
    EvalBare("inx", "", env);
    EvalChar('x', "", env);
    assert "$" + "in" + "" == "$in" && "$in" + "x" == "$" + "inx" + "" && ['x'] + "" == "x";
    assert env("in") + "" == env("in") && env("inx") + "" == env("inx");
  }

  // ----- exactly which texts may be followed by anything -----

  /** The length of the character, escape or variable at the start. */
  function TokenLength(s: string): (n: nat)
    requires s != []
    ensures n > 0
  {
    if s[0] != '$' || |s| == 1 then 1
    else if s[1] == '$' then 2
    else if s[1] == '{' then 3 + BraceLength(s[2..])
    else 1 + VarLength(s[1..])
  }

  function TokenValue(s: string, env: string -> string): string
    requires s != [] && TokenLength(s) <= |s|
  {
    if s[0] != '$' || |s| == 1 then [s[0]]
    else if s[1] == '$' then "$"
    else if s[1] == '{' then env(s[2..TokenLength(s) - 1])
    else env(s[1..TokenLength(s)])
  }

  /** The text is a bare variable and nothing else. */
  predicate IsBare(s: string)
    requires s != []
  {
    TokenLength(s) == |s| > 1 && s[0] == '$' && s[1] != '$' && s[1] != '{'
  }

  /** The text ends in a bare variable, whose name what follows may go on with. */
  predicate EndsBare(s: string)
    decreases |s|
  {
    s != [] && TokenLength(s) <= |s| && (IsBare(s) || EndsBare(s[TokenLength(s)..]))
  }

  function NoValues(): string -> string {
    name => ""
  }

  /** The text evaluates and does not end in a bare variable. */
  predicate Closed(v: string) {
    Eval(v, NoValues()).Some? && !EndsBare(v)
  }

  lemma {:induction false} EvalToken(s: string, env: string -> string)
    requires s != [] && Eval(s, env).Some?
    ensures TokenLength(s) <= |s|
    ensures Eval(s, env) == Prepend(TokenValue(s, env), Eval(s[TokenLength(s)..], env))
  {
  }

  lemma {:induction false} BraceLengthAppend(s: string, t: string)
    requires BraceLength(s) < |s|
    ensures BraceLength(s + t) == BraceLength(s)
  {
    assert (s + t)[0] == s[0] && (s + t)[1..] == s[1..] + t;
    if s[0] != '}' {
      BraceLengthAppend(s[1..], t);
    }
  }

  lemma {:induction false} VarLengthAppend(s: string, t: string)
    requires VarLength(s) < |s|
    ensures VarLength(s + t) == VarLength(s)
  {
    assert (s + t)[0] == s[0] && (s + t)[1..] == s[1..] + t;
    if IsVarChar(s[0]) {
      VarLengthAppend(s[1..], t);
    }
  }

  /** A token that is not a bare variable at the end is the same token whatever follows. */
  lemma {:induction false} EvalTokenAppend(s: string, t: string, env: string -> string)
    requires s != [] && Eval(s, env).Some? && !IsBare(s) && TokenLength(s) <= |s|
    ensures Eval(s + t, env) == Prepend(TokenValue(s, env), Eval(s[TokenLength(s)..] + t, env))
  {
    var n := TokenLength(s);
    assert (s + t)[n..] == s[n..] + t && (s + t)[0] == s[0];
    if s[0] == '$' {
      assert (s + t)[1] == s[1];
      if s[1] == '{' {
        BracedAppend(s, t, env);
      } else if s[1] != '$' {
        NamedAppend(s, t, env);
      }
    }
  }

  lemma {:induction false} BracedAppend(s: string, t: string, env: string -> string)
    requires |s| > 1 && s[0] == '$' && s[1] == '{' && 0 < BraceLength(s[2..]) < |s| - 2
    ensures Eval(s + t, env) == Prepend(TokenValue(s, env), Eval(s[TokenLength(s)..] + t, env))
  {
    var n := BraceLength(s[2..]);
    assert (s + t)[2..] == s[2..] + t;
    BraceLengthAppend(s[2..], t);
    assert (s + t)[2..2 + n] == s[2..2 + n];
    assert (s + t)[3 + n..] == s[3 + n..] + t;
  }

  lemma {:induction false} NamedAppend(s: string, t: string, env: string -> string)
    requires |s| > 1 && s[0] == '$' && s[1] != '$' && s[1] != '{' && 0 < VarLength(s[1..]) < |s| - 1
    ensures Eval(s + t, env) == Prepend(TokenValue(s, env), Eval(s[TokenLength(s)..] + t, env))
  {
    var n := VarLength(s[1..]);
    assert (s + t)[1..] == s[1..] + t;
    VarLengthAppend(s[1..], t);
    assert (s + t)[1..1 + n] == s[1..1 + n];
    assert (s + t)[1 + n..] == s[1 + n..] + t;
  }

  lemma {:induction false} ClosedConcat(v: string, t: string, env: string -> string)
    requires Eval(v, env).Some? && !EndsBare(v)
    ensures Eval(v + t, env) == Prepend(Eval(v, env).value, Eval(t, env))
    decreases |v|
  {
    if v == [] {
      assert v + t == t;
      assert Eval(t, env).Some? ==> [] + Eval(t, env).value == Eval(t, env).value;
    } else {
      EvalToken(v, env);
      EvalTokenAppend(v, t, env);
      var rest := v[TokenLength(v)..];
      ClosedConcat(rest, t, env);
      PrependConcat(TokenValue(v, env), Eval(rest, env).value, Eval(t, env));
    }
  }

  lemma {:induction false} VarLengthGrows(s: string)
    requires VarLength(s) == |s|
    ensures VarLength(s + "x") == |s| + 1
  {
    if s == [] {
      assert s + "x" == "x" && "x"[1..] == "";
    } else {
      assert (s + "x")[0] == s[0] && (s + "x")[1..] == s[1..] + "x";
      VarLengthGrows(s[1..]);
    }
  }

  /** A bare variable at the end takes in a letter that follows. */
  lemma {:induction false} BareAbsorbs(v: string)
    requires Eval(v, NoValues()).Some? && EndsBare(v)
    ensures Eval(v + "x", NoValues()) == Eval(v, NoValues())
    decreases |v|
  {
    EvalToken(v, NoValues());
    if IsBare(v) {
      VarLengthGrows(v[1..]);
      var s := v + "x";
      assert s[0] == '$' && s[1] == v[1] && s[1..] == v[1..] + "x";
      assert s[1 + VarLength(s[1..])..] == [] && v[TokenLength(v)..] == [];
    } else {
      EvalTokenAppend(v, "x", NoValues());
      BareAbsorbs(v[TokenLength(v)..]);
    }
  }

  /** Whether a text evaluates does not depend on what the variables are. */
  lemma {:induction false} EvalInAnyEnv(s: string, env: string -> string, env': string -> string)
    requires Eval(s, env).Some?
    ensures Eval(s, env').Some?
    decreases |s|
  {
    if s != [] {
      EvalToken(s, env);
      EvalInAnyEnv(s[TokenLength(s)..], env, env');
    }
  }

  /** The texts that are delimited whatever the variables are. */
  lemma {:induction false} ClosedExactly(v: string)
    ensures Closed(v) <==> forall env: string -> string :: Delimited(v, env)
  {
    if Closed(v) {
      forall env: string -> string ensures Delimited(v, env) {
        EvalInAnyEnv(v, NoValues(), env);
        forall t: string ensures Eval(v + t, env) == Prepend(Eval(v, env).value, Eval(t, env)) {
          ClosedConcat(v, t, env);
        }
      }
    }
    if Delimited(v, NoValues()) {
      NotBareAtEnd(v);
    }
  }

  lemma {:induction false} NotBareAtEnd(v: string)
    requires Eval(v, NoValues()).Some?
    requires Eval(v + "x", NoValues()) == Prepend(Eval(v, NoValues()).value, Eval("x", NoValues()))
    ensures !EndsBare(v)
  {
    EvalChar('x', "", NoValues());
    assert ['x'] + "" == "x";
    var value := Eval(v, NoValues()).value;
    assert |value + "x"| == |value| + 1;
    if EndsBare(v) {
      BareAbsorbs(v);
    }
  }
}
