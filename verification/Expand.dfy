// android/expand.go: substitution of $(name) references, with or without ninja escaping.
module Expand {
  import opened Wrappers
  import opened Ninja

  datatype Expansion = Expansion(value: string, ninjaVariable: bool)

  datatype Error =
    | NothingAfterDollar            // expected character after '$'
    | MissingParen                  // missing )
    | UnexpectedSpace(c: char)      // unexpected character after '$'
    | ExpectedParen(text: string)   // expected '(' after '$', did you mean $(text)?
    | MappingError(message: string)

  type Mapping = string -> Result<Expansion, string>

  /** unicode.IsSpace. */
  predicate IsSpace(c: char) {
    || '\t' <= c <= '\r' || c == ' ' || c == '\U{0085}' || c == '\U{00A0}' || c == '\U{1680}'
    || '\U{2000}' <= c <= '\U{200A}' || c == '\U{2028}' || c == '\U{2029}' || c == '\U{202F}'
    || c == '\U{205F}' || c == '\U{3000}'
  }

  function TrimLeft(s: string): string {
    if s != [] && IsSpace(s[0]) then TrimLeft(s[1..]) else s
  }

  function TrimRight(s: string): string {
    if s != [] && IsSpace(s[|s| - 1]) then TrimRight(s[..|s| - 1]) else s
  }

  function TrimSpace(s: string): string {
    TrimRight(TrimLeft(s))
  }

  /** The least index from `i` on at which p holds, or |s|. */
  function IndexFrom(s: string, i: nat, p: char -> bool): (k: nat)
    requires i <= |s|
    ensures i <= k <= |s|
    ensures k < |s| ==> p(s[k])
    decreases |s| - i
  {
    if i == |s| || p(s[i]) then i else IndexFrom(s, i + 1, p)
  }

  lemma {:induction false} IndexFromIsLeast(s: string, i: nat, p: char -> bool)
    requires i <= |s|
    ensures forall m :: i <= m < IndexFrom(s, i, p) ==> !p(s[m])
    decreases |s| - i
  {
    if i < |s| && !p(s[i]) {
      IndexFromIsLeast(s, i + 1, p);
    }
  }

  /** What follows a dollar sign, and its width. */
  datatype Reference = Reference(expansion: Result<Expansion, Error>, width: nat)

  function ReferenceAt(s: string, mapping: Mapping): (r: Reference)
    requires s != []
    ensures r.expansion.Ok? ==> 0 < r.width <= |s|
  {
    if s[0] == '(' then
      var i := IndexFrom(s, 1, c => c == ')');
      if i == |s| then Reference(Err(MissingParen), |s|)
      else
        match mapping(TrimSpace(s[1..i]))
        case Ok(e) => Reference(Ok(e), i + 1)
        case Err(m) => Reference(Err(MappingError(m)), i + 1)
    else if s[0] == '$' then Reference(Ok(Expansion("$", false)), 1)
    else
      var i := IndexFrom(s, 0, IsSpace);
      Reference(Err(if i == 0 then UnexpectedSpace(s[0]) else ExpectedParen(s[..i])), 0)
  }

  method GetMapping(s: string, mapping: Mapping) returns (r: Reference)
    requires s != []
    ensures r == ReferenceAt(s, mapping)
    ensures Refers(s, mapping, r)
  {
    ReferenceAtRefers(s, mapping);
    if s[0] == '(' {
      for i := 1 to |s|
        invariant IndexFrom(s, 1, c => c == ')') == IndexFrom(s, i, c => c == ')')
      {
        if s[i] == ')' {
          match mapping(TrimSpace(s[1..i]))
          case Ok(e) => return Reference(Ok(e), i + 1);
          case Err(m) => return Reference(Err(MappingError(m)), i + 1);
        }
      }
      return Reference(Err(MissingParen), |s|);
    } else if s[0] == '$' {
      return Reference(Ok(Expansion("$", false)), 1);
    } else {
      var i := IndexFrom(s, 0, IsSpace);
      return Reference(Err(if i == 0 then UnexpectedSpace(s[0]) else ExpectedParen(s[..i])), 0);
    }
  }

  function Before(s: string, rest: Result<string, Error>): Result<string, Error> {
    match rest
    case Err(e) => Err(e)
    case Ok(t) => Ok(s + t)
  }

  function Rendered(e: Expansion, ninjaEscape: bool): string {
    if !e.ninjaVariable && ninjaEscape then Escape(e.value) else e.value
  }

  /** Reading from the left: text is copied, a reference is replaced and skipped as a whole. */
  function Expanded(s: string, ninjaEscape: bool, mapping: Mapping): Result<string, Error>
    decreases |s|
  {
    if s == [] then Ok("")
    else if s[0] != '$' then Before([s[0]], Expanded(s[1..], ninjaEscape, mapping))
    else if |s| == 1 then Err(NothingAfterDollar)
    else
      var r := ReferenceAt(s[1..], mapping);
      match r.expansion
      case Err(e) => Err(e)
      case Ok(e) => Before(Rendered(e, ninjaEscape), Expanded(s[1 + r.width..], ninjaEscape, mapping))
  }

  /** `buf` and then s[i..j] is what s[..j] expands to. */
  ghost predicate Pending(s: string, ninjaEscape: bool, mapping: Mapping, buf: string, i: nat, j: nat)
    requires i <= j <= |s|
  {
    Expanded(s, ninjaEscape, mapping) == Before(buf + s[i..j], Expanded(s[j..], ninjaEscape, mapping))
  }

  /** expand. */
  method DoExpand(s: string, ninjaEscape: bool, mapping: Mapping) returns (result: Result<string, Error>)
    ensures result == Expanded(s, ninjaEscape, mapping)
  {
    var buf := "";
    var i, j := 0, 0;
    PendingAtStart(s, ninjaEscape, mapping);
    while j < |s|
      invariant 0 <= i <= j <= |s|
      invariant Pending(s, ninjaEscape, mapping, buf, i, j)
    {
      if s[j] == '$' {
        var value, w := ExpandReference(s, ninjaEscape, mapping, buf, i, j);
        if value.Err? {
          return value;
        }
        buf := value.value;
        j := j + w;
        i := j + 1;
      } else {
        PendingText(s, ninjaEscape, mapping, buf, i, j);
      }
      j := j + 1;
    }
    PendingAtEnd(s, ninjaEscape, mapping, buf, i);
    result := Ok(buf + s[i..]);
  }

  /** The branch for a dollar sign: the extended buffer and the width of the reference. */
  method ExpandReference(s: string, ninjaEscape: bool, mapping: Mapping, buf: string, i: nat, j: nat)
      returns (value: Result<string, Error>, w: nat)
    requires i <= j < |s| && s[j] == '$' && Pending(s, ninjaEscape, mapping, buf, i, j)
    ensures value.Err? ==> value == Expanded(s, ninjaEscape, mapping)
    ensures value.Ok? ==> j + w + 1 <= |s| && Pending(s, ninjaEscape, mapping, value.value, j + w + 1, j + w + 1)
  {
    PendingReference(s, ninjaEscape, mapping, buf, i, j);
    if j + 1 >= |s| {
      return Err(NothingAfterDollar), 0;
    }
    var r := GetMapping(s[j + 1..], mapping);
    if r.expansion.Err? {
      return Err(r.expansion.error), 0;
    }
    return Ok(buf + s[i..j] + Rendered(r.expansion.value, ninjaEscape)), r.width;
  }

  lemma {:induction false} PendingAtStart(s: string, ninjaEscape: bool, mapping: Mapping)
    ensures Pending(s, ninjaEscape, mapping, "", 0, 0)
  {
    BeforeNothing(Expanded(s, ninjaEscape, mapping));
    assert s[0..] == s && "" + s[0..0] == "";
  }

  lemma {:induction false} PendingText(s: string, ninjaEscape: bool, mapping: Mapping, buf: string, i: nat, j: nat)
    requires i <= j < |s| && s[j] != '$' && Pending(s, ninjaEscape, mapping, buf, i, j)
    ensures Pending(s, ninjaEscape, mapping, buf, i, j + 1)
  {
    assert s[j..][1..] == s[j + 1..];
    BeforeConcat(buf + s[i..j], [s[j]], Expanded(s[j + 1..], ninjaEscape, mapping));
    assert (buf + s[i..j]) + [s[j]] == buf + s[i..j + 1];
  }

  lemma {:induction false} PendingReference(s: string, ninjaEscape: bool, mapping: Mapping, buf: string, i: nat, j: nat)
    requires i <= j < |s| && s[j] == '$' && Pending(s, ninjaEscape, mapping, buf, i, j)
    ensures j + 1 == |s| ==> Expanded(s, ninjaEscape, mapping) == Err(NothingAfterDollar)
    ensures j + 1 < |s| ==>
      var r := ReferenceAt(s[j + 1..], mapping);
      match r.expansion
      case Err(e) => Expanded(s, ninjaEscape, mapping) == Err(e)
      case Ok(e) =>
        var next := j + r.width + 1;
        Pending(s, ninjaEscape, mapping, buf + s[i..j] + Rendered(e, ninjaEscape), next, next)
  {
    if j + 1 < |s| {
      var r := ReferenceAt(s[j + 1..], mapping);
      assert s[j..][1..] == s[j + 1..];
      if r.expansion.Ok? {
        var next := j + r.width + 1;
        var value, rest := Rendered(r.expansion.value, ninjaEscape), Expanded(s[next..], ninjaEscape, mapping);
        assert s[j..][1 + r.width..] == s[next..];
        BeforeConcat(buf + s[i..j], value, rest);
        assert (buf + s[i..j] + value) + s[next..next] == buf + s[i..j] + value;
      }
    }
  }

  lemma {:induction false} PendingAtEnd(s: string, ninjaEscape: bool, mapping: Mapping, buf: string, i: nat)
    requires i <= |s| && Pending(s, ninjaEscape, mapping, buf, i, |s|)
    ensures Expanded(s, ninjaEscape, mapping) == Ok(buf + s[i..])
  {
    assert s[|s|..] == [] && s[i..|s|] == s[i..];
    assert (buf + s[i..]) + "" == buf + s[i..];
  }

  lemma {:induction false} BeforeNothing(rest: Result<string, Error>)
    ensures Before("", rest) == rest
  {
    if rest.Ok? {
      assert "" + rest.value == rest.value;
    }
  }

  lemma {:induction false} BeforeConcat(a: string, b: string, rest: Result<string, Error>)
    ensures Before(a, Before(b, rest)) == Before(a + b, rest)
  {
    if rest.Ok? {
      assert a + (b + rest.value) == (a + b) + rest.value;
    }
  }

  // ----- what a reference is -----

  ghost predicate AllSpace(s: string) {
    forall i :: 0 <= i < |s| ==> IsSpace(s[i])
  }

  ghost predicate Trimmed(s: string) {
    s != [] ==> !IsSpace(s[0]) && !IsSpace(s[|s| - 1])
  }

  /** TrimSpace removes the space around a text and nothing else. */
  lemma {:induction false} TrimsSpaceAround(a: string, t: string, b: string)
    requires AllSpace(a) && Trimmed(t) && AllSpace(b)
    ensures TrimSpace(a + t + b) == t
  {
    TrimsLeft(a, t + b);
    assert a + t + b == a + (t + b);
    if t == [] {
      assert t + b == b + [];
      TrimsLeft(b, []);
    } else {
      assert TrimLeft(t + b) == t + b;
      TrimsRight(t, b);
    }
  }

  lemma {:induction false} TrimsLeft(a: string, t: string)
    requires AllSpace(a)
    ensures TrimLeft(a + t) == TrimLeft(t)
  {
    if a == [] {
      assert a + t == t;
    } else {
      assert (a + t)[1..] == a[1..] + t;
      TrimsLeft(a[1..], t);
    }
  }

  lemma {:induction false} TrimsRight(t: string, b: string)
    requires t != [] && !IsSpace(t[|t| - 1]) && AllSpace(b)
    ensures TrimRight(t + b) == t
  {
    if b == [] {
      assert t + b == t;
    } else {
      assert (t + b)[..|t + b| - 1] == t + b[..|b| - 1];
      TrimsRight(t, b[..|b| - 1]);
    }
  }

  /** `s` starts with (name) and goes on with `rest`. */
  ghost predicate Names(s: string, name: string, rest: string) {
    s == "(" + name + ")" + rest && ')' !in name
  }

  function Looked(r: Result<Expansion, string>): Result<Expansion, Error> {
    match r
    case Ok(e) => Ok(e)
    case Err(m) => Err(MappingError(m))
  }

  /** A text that cannot be a reference: the part before the first space is shown to the user. */
  ghost predicate Suggests(s: string, text: string) {
    && text != [] && text <= s && (forall i :: 0 <= i < |text| ==> !IsSpace(text[i]))
    && (text == s || IsSpace(s[|text|]))
  }

  /** What getMapping promises about the text after a dollar sign, case by case. */
  ghost predicate Refers(s: string, mapping: Mapping, r: Reference)
    requires s != []
  {
    && (forall name, rest :: Names(s, name, rest) ==>
         r.width == |name| + 2 && r.expansion == Looked(mapping(TrimSpace(name))))
    && (s[0] == '(' && ')' !in s ==> r.expansion == Err(MissingParen))
    && (s[0] == '$' ==> r == Reference(Ok(Expansion("$", false)), 1))
    && (IsSpace(s[0]) ==> r.expansion == Err(UnexpectedSpace(s[0])))
    && (s[0] != '(' && s[0] != '$' && !IsSpace(s[0]) ==>
         r.expansion.Err? && r.expansion.error.ExpectedParen? && Suggests(s, r.expansion.error.text))
  }

  lemma {:induction false} ReferenceAtRefers(s: string, mapping: Mapping)
    requires s != []
    ensures Refers(s, mapping, ReferenceAt(s, mapping))
  {
    forall name, rest | Names(s, name, rest)
      ensures ReferenceAt(s, mapping) == Reference(Looked(mapping(TrimSpace(name))), |name| + 2)
    {
      NamedReference(s, name, rest, mapping);
    }
    if s[0] == '(' && ')' !in s {
      UnclosedReference(s, mapping);
    }
    IndexFromIsLeast(s, 0, IsSpace);
  }

  lemma {:induction false} NamedReference(s: string, name: string, rest: string, mapping: Mapping)
    requires Names(s, name, rest)
    ensures ReferenceAt(s, mapping) == Reference(Looked(mapping(TrimSpace(name))), |name| + 2)
  {
    var closes := (c: char) => c == ')';
    var i := IndexFrom(s, 1, closes);
    IndexFromIsLeast(s, 1, closes);
    assert s[|name| + 1] == ')';
    assert forall m :: 1 <= m < |name| + 1 ==> s[m] == name[m - 1];
    assert forall m :: 1 <= m < |name| + 1 ==> s[m] in name;
    assert i == |name| + 1;
    assert s[1..i] == name;
  }

  lemma {:induction false} UnclosedReference(s: string, mapping: Mapping)
    requires s != [] && s[0] == '(' && ')' !in s
    ensures ReferenceAt(s, mapping).expansion == Err(MissingParen)
  {
    assert forall m :: 1 <= m < |s| ==> s[m] in s;
  }

  // ----- the language of templates -----

  datatype Token = Text(text: string) | Dollar | Ref(name: string)

  /** Text holds no dollar sign; a name may hold anything but the parenthesis that ends it. */
  ghost predicate IsToken(t: Token) {
    match t
    case Text(text) => '$' !in text
    case Dollar => true
    case Ref(name) => ')' !in name
  }

  ghost predicate AreTokens(ts: seq<Token>) {
    forall i :: 0 <= i < |ts| ==> IsToken(ts[i])
  }

  function Written(t: Token): string {
    match t
    case Text(text) => text
    case Dollar => "$$"
    case Ref(name) => "$(" + name + ")"
  }

  function WrittenAll(ts: seq<Token>): string {
    if ts == [] then "" else Written(ts[0]) + WrittenAll(ts[1..])
  }

  function Meaning(t: Token, ninjaEscape: bool, mapping: Mapping): Result<string, Error> {
    match t
    case Text(text) => Ok(text)
    case Dollar => Ok(if ninjaEscape then "$$" else "$")
    case Ref(name) =>
      match mapping(TrimSpace(name))
      case Ok(e) => Ok(if ninjaEscape && !e.ninjaVariable then Escape(e.value) else e.value)
      case Err(m) => Err(MappingError(m))
  }

  /** `a` and then `b`, or the first error. */
  function Then(a: Result<string, Error>, b: Result<string, Error>): Result<string, Error> {
    match a
    case Err(e) => Err(e)
    case Ok(s) => Before(s, b)
  }

  function MeaningAll(ts: seq<Token>, ninjaEscape: bool, mapping: Mapping): Result<string, Error> {
    if ts == [] then Ok("") else Then(Meaning(ts[0], ninjaEscape, mapping), MeaningAll(ts[1..], ninjaEscape, mapping))
  }

  lemma {:induction false} TextExpands(text: string, rest: string, ninjaEscape: bool, mapping: Mapping)
    requires '$' !in text
    ensures Expanded(text + rest, ninjaEscape, mapping) == Before(text, Expanded(rest, ninjaEscape, mapping))
    decreases |text|
  {
    var r := Expanded(rest, ninjaEscape, mapping);
    if text == [] {
      assert text + rest == rest;
      BeforeNothing(r);
    } else {
      assert text[0] in text;
      assert (text + rest)[1..] == text[1..] + rest;
      TextExpands(text[1..], rest, ninjaEscape, mapping);
      BeforeConcat([text[0]], text[1..], r);
      assert [text[0]] + text[1..] == text;
    }
  }

  /** A reference is looked up by its trimmed name and consumed as a whole. */
  lemma {:induction false} ReferenceExpands(name: string, rest: string, ninjaEscape: bool, mapping: Mapping)
    requires ')' !in name
    ensures Expanded("$(" + name + ")" + rest, ninjaEscape, mapping) ==
      match mapping(TrimSpace(name))
      case Err(m) => Err(MappingError(m))
      case Ok(e) => Before(Rendered(e, ninjaEscape), Expanded(rest, ninjaEscape, mapping))
  {
    var s := "$(" + name + ")" + rest;
    assert s[1..] == "(" + name + ")" + rest;
    NamedReference(s[1..], name, rest, mapping);
    assert s[1 + (|name| + 2)..] == rest;
  }

  lemma {:induction false} DollarExpands(rest: string, ninjaEscape: bool, mapping: Mapping)
    ensures Expanded("$$" + rest, ninjaEscape, mapping) ==
      Before(if ninjaEscape then "$$" else "$", Expanded(rest, ninjaEscape, mapping))
  {
    var s := "$$" + rest;
    assert s[1..] == "$" + rest && s[2..] == rest;
    assert Escape("$") == "$$";
  }

  lemma {:induction false} TokenExpands(t: Token, rest: string, ninjaEscape: bool, mapping: Mapping)
    requires IsToken(t)
    ensures Expanded(Written(t) + rest, ninjaEscape, mapping) ==
      Then(Meaning(t, ninjaEscape, mapping), Expanded(rest, ninjaEscape, mapping))
  {
    match t
    case Text(text) => TextExpands(text, rest, ninjaEscape, mapping);
    case Dollar => DollarExpands(rest, ninjaEscape, mapping);
    case Ref(name) => ReferenceExpands(name, rest, ninjaEscape, mapping);
  }

  /** Tokens written one after the other expand to their meanings, or fail with the first error. */
  lemma {:induction false} TokensExpand(ts: seq<Token>, rest: string, ninjaEscape: bool, mapping: Mapping)
    requires AreTokens(ts)
    ensures Expanded(WrittenAll(ts) + rest, ninjaEscape, mapping) ==
      Then(MeaningAll(ts, ninjaEscape, mapping), Expanded(rest, ninjaEscape, mapping))
    decreases |ts|
  {
    var r := Expanded(rest, ninjaEscape, mapping);
    if ts == [] {
      assert WrittenAll(ts) + rest == rest;
      BeforeNothing(r);
    } else {
      var tail := WrittenAll(ts[1..]) + rest;
      assert WrittenAll(ts) + rest == Written(ts[0]) + tail;
      TokenExpands(ts[0], tail, ninjaEscape, mapping);
      TokensExpand(ts[1..], rest, ninjaEscape, mapping);
      ThenThen(Meaning(ts[0], ninjaEscape, mapping), MeaningAll(ts[1..], ninjaEscape, mapping), r);
    }
  }

  lemma {:induction false} ThenThen(a: Result<string, Error>, b: Result<string, Error>, c: Result<string, Error>)
    ensures Then(a, Then(b, c)) == Then(Then(a, b), c)
  {
    if a.Ok? && b.Ok? {
      BeforeConcat(a.value, b.value, c);
    }
  }

  // ----- which texts fail, and how -----

  /** A text at whose very start the expansion fails with `e`. */
  ghost predicate Broken(s: string, mapping: Mapping, e: Error) {
    && s != [] && s[0] == '$'
    && match e
       case NothingAfterDollar => s == "$"
       case MissingParen => |s| > 1 && s[1] == '(' && ')' !in s
       case UnexpectedSpace(c) => |s| > 1 && s[1] == c && IsSpace(c)
       case ExpectedParen(text) => |s| > 1 && s[1] != '(' && s[1] != '$' && Suggests(s[1..], text)
       case MappingError(m) =>
         exists name, rest :: Names(s[1..], name, rest) && mapping(TrimSpace(name)) == Err(m)
  }

  lemma {:induction false} BrokenFails(s: string, ninjaEscape: bool, mapping: Mapping, e: Error)
    requires Broken(s, mapping, e)
    ensures Expanded(s, ninjaEscape, mapping) == Err(e)
  {
    if |s| > 1 {
      var after := s[1..];
      ReferenceAtRefers(after, mapping);
      match e
      case NothingAfterDollar =>
      case MissingParen => assert ')' !in after;
      case UnexpectedSpace(c) =>
      case ExpectedParen(text) => OneSuggestion(after, text, ReferenceAt(after, mapping).expansion.error.text);
      case MappingError(m) =>
        var name, rest :| Names(after, name, rest) && mapping(TrimSpace(name)) == Err(m);
    }
  }

  lemma {:induction false} OneSuggestion(s: string, a: string, b: string)
    requires Suggests(s, a) && Suggests(s, b)
    ensures a == b
  {
    NotLonger(s, a, b);
    NotLonger(s, b, a);
    assert a == s[..|a|] && b == s[..|b|];
  }

  lemma {:induction false} NotLonger(s: string, a: string, b: string)
    requires Suggests(s, a) && Suggests(s, b)
    ensures |b| <= |a|
  {
    assert forall i :: 0 <= i < |b| ==> s[i] == b[i];
  }

  /** Every text is tokens, and then nothing or something broken. */
  lemma {:induction false} Tokenizes(s: string, ninjaEscape: bool, mapping: Mapping)
      returns (ts: seq<Token>, bad: string)
    ensures AreTokens(ts) && s == WrittenAll(ts) + bad
    ensures MeaningAll(ts, ninjaEscape, mapping).Ok?
    ensures bad == [] || exists e :: Broken(bad, mapping, e)
    decreases |s|
  {
    ts, bad := [], s;
    if s != [] {
      var t, n := FirstToken(s, mapping);
      if n > 0 {
        var more;
        more, bad := Tokenizes(s[n..], ninjaEscape, mapping);
        assert s == s[..n] + s[n..];
        PrependToken(t, more, bad, ninjaEscape, mapping);
        ts := [t] + more;
      }
    }
  }

  lemma {:induction false} PrependToken(t: Token, ts: seq<Token>, rest: string, ninjaEscape: bool, mapping: Mapping)
    requires IsToken(t) && AreTokens(ts)
    requires Meaning(t, ninjaEscape, mapping).Ok? && MeaningAll(ts, ninjaEscape, mapping).Ok?
    ensures AreTokens([t] + ts) && MeaningAll([t] + ts, ninjaEscape, mapping).Ok?
    ensures WrittenAll([t] + ts) + rest == Written(t) + (WrittenAll(ts) + rest)
  {
    assert ([t] + ts)[1..] == ts;
  }

  /** The first token and its length, which is 0 if the text is broken here. */
  lemma {:induction false} FirstToken(s: string, mapping: Mapping) returns (t: Token, n: nat)
    requires s != []
    ensures n <= |s|
    ensures n == 0 ==> exists e :: Broken(s, mapping, e)
    ensures n > 0 ==> IsToken(t) && Written(t) == s[..n]
    ensures n > 0 && t.Ref? ==> mapping(TrimSpace(t.name)).Ok?
  {
    t, n := Dollar, 0;
    if s[0] != '$' {
      t, n := Text(s[..1]), 1;
    } else if |s| == 1 {
      assert s == "$";
      assert Broken(s, mapping, NothingAfterDollar);
    } else if s[1] == '$' {
      n := 2;
      assert s[..2] == "$$";
    } else if s[1] == '(' {
      t, n := FirstReference(s, mapping);
    } else {
      NotAReference(s, mapping);
    }
  }

  lemma {:induction false} FirstReference(s: string, mapping: Mapping) returns (t: Token, n: nat)
    requires |s| > 1 && s[0] == '$' && s[1] == '('
    ensures n <= |s|
    ensures n == 0 ==> exists e :: Broken(s, mapping, e)
    ensures n > 0 ==> t.Ref? && IsToken(t) && Written(t) == s[..n] && mapping(TrimSpace(t.name)).Ok?
  {
    t, n := Dollar, 0;
    var closes := (c: char) => c == ')';
    var i := IndexFrom(s, 2, closes);
    IndexFromIsLeast(s, 2, closes);
    if i == |s| {
      assert Broken(s, mapping, MissingParen);
    } else {
      var name := s[2..i];
      assert ')' !in name;
      assert Names(s[1..], name, s[i + 1..]);
      match mapping(TrimSpace(name))
      case Err(m) => assert Broken(s, mapping, MappingError(m));
      case Ok(e) =>
        t, n := Ref(name), i + 1;
        assert s[..n] == "$(" + name + ")";
    }
  }

  lemma {:induction false} NotAReference(s: string, mapping: Mapping)
    requires |s| > 1 && s[0] == '$' && s[1] != '$' && s[1] != '('
    ensures exists e :: Broken(s, mapping, e)
  {
    if IsSpace(s[1]) {
      assert Broken(s, mapping, UnexpectedSpace(s[1]));
    } else {
      ReferenceAtRefers(s[1..], mapping);
      assert Broken(s, mapping, ReferenceAt(s[1..], mapping).expansion.error);
    }
  }

  /** The expansion as a relation on texts, which knows nothing of widths or of reading order. */
  ghost predicate ExpandsTo(s: string, ninjaEscape: bool, mapping: Mapping, r: Result<string, Error>) {
    match r
    case Ok(v) => exists ts :: TokensOf(s, ts, "") && MeaningAll(ts, ninjaEscape, mapping) == Ok(v)
    case Err(e) =>
      exists ts, bad ::
        TokensOf(s, ts, bad) && MeaningAll(ts, ninjaEscape, mapping).Ok? && Broken(bad, mapping, e)
  }

  ghost predicate TokensOf(s: string, ts: seq<Token>, rest: string) {
    AreTokens(ts) && s == WrittenAll(ts) + rest
  }

  /**
   * A text expands to v exactly if it is a sequence of tokens with the meaning v, and fails with
   * an error exactly if tokens that all have a meaning are followed by a text broken in that way.
   */
  lemma {:induction false} ExpandsExactly(s: string, ninjaEscape: bool, mapping: Mapping, r: Result<string, Error>)
    ensures Expanded(s, ninjaEscape, mapping) == r <==> ExpandsTo(s, ninjaEscape, mapping, r)
  {
    if ExpandsTo(s, ninjaEscape, mapping, r) {
      ExpandsToMeans(s, ninjaEscape, mapping, r);
    }
    if Expanded(s, ninjaEscape, mapping) == r {
      var ts, bad := Tokenizes(s, ninjaEscape, mapping);
      TokensExpand(ts, bad, ninjaEscape, mapping);
      assert TokensOf(s, ts, bad);
      if bad == [] {
        var v := MeaningAll(ts, ninjaEscape, mapping).value;
        assert v + "" == v;
      } else {
        var e :| Broken(bad, mapping, e);
        BrokenFails(bad, ninjaEscape, mapping, e);
      }
    }
  }

  lemma {:induction false} ExpandsToMeans(s: string, ninjaEscape: bool, mapping: Mapping, r: Result<string, Error>)
    requires ExpandsTo(s, ninjaEscape, mapping, r)
    ensures Expanded(s, ninjaEscape, mapping) == r
  {
    match r
    case Ok(v) =>
      var ts :| TokensOf(s, ts, "") && MeaningAll(ts, ninjaEscape, mapping) == Ok(v);
      TokensExpand(ts, "", ninjaEscape, mapping);
      assert v + "" == v;
    case Err(e) =>
      var ts, bad :|
        TokensOf(s, ts, bad) && MeaningAll(ts, ninjaEscape, mapping).Ok? && Broken(bad, mapping, e);
      TokensExpand(ts, bad, ninjaEscape, mapping);
      BrokenFails(bad, ninjaEscape, mapping, e);
  }

  // ----- the two entry points -----

  /** Expand: the mapping has no ninja variables. */
  function Plainly(mapping: string -> Result<string, string>): Mapping {
    name =>
      match mapping(name)
      case Ok(v) => Ok(Expansion(v, false))
      case Err(m) => Err(m)
  }

  function ExpandPlain(s: string, mapping: string -> Result<string, string>): Result<string, Error> {
    Expanded(s, false, Plainly(mapping))
  }

  function ExpandNinjaEscaped(s: string, mapping: Mapping): Result<string, Error> {
    Expanded(s, true, mapping)
  }

  /** Expand, as its callers see it. */
  method ExpandVariables(s: string, mapping: string -> Result<string, string>) returns (r: Result<string, Error>)
    ensures ExpandsTo(s, false, Plainly(mapping), r)
    ensures r == ExpandPlain(s, mapping)
  {
    r := DoExpand(s, false, Plainly(mapping));
    ExpandsExactly(s, false, Plainly(mapping), r);
  }

  /** ExpandNinjaEscaped, as its callers see it. */
  method ExpandVariablesEscaped(s: string, mapping: Mapping) returns (r: Result<string, Error>)
    ensures ExpandsTo(s, true, mapping, r)
    ensures r == ExpandNinjaEscaped(s, mapping)
  {
    r := DoExpand(s, true, mapping);
    ExpandsExactly(s, true, mapping, r);
  }

  function Mapped(r: Result<string, Error>): Result<string, Error> {
    match r
    case Ok(v) => Ok(Escape(v))
    case Err(e) => Err(e)
  }

  /**
   * Without ninja variables the escaped expansion fails exactly when the plain one does, and
   * otherwise is its escaping, so that the replacer of makevars gives the plain expansion back.
   */
  lemma {:induction false} EscapedExpansion(s: string, mapping: string -> Result<string, string>)
    ensures ExpandNinjaEscaped(s, Plainly(mapping)) == Mapped(ExpandPlain(s, mapping))
    ensures ExpandPlain(s, mapping).Ok? ==>
      Descape(ExpandNinjaEscaped(s, Plainly(mapping)).value) == ExpandPlain(s, mapping).value
  {
    EscapedOf(s, Plainly(mapping));
    if ExpandPlain(s, mapping).Ok? {
      DescapeUndoesEscape(ExpandPlain(s, mapping).value);
    }
  }

  lemma {:induction false} EscapedOf(s: string, mapping: Mapping)
    requires forall name :: mapping(name).Ok? ==> !mapping(name).value.ninjaVariable
    ensures Expanded(s, true, mapping) == Mapped(Expanded(s, false, mapping))
    decreases |s|
  {
    if s != [] && s[0] != '$' {
      EscapedOf(s[1..], mapping);
      BeforeEscaped([s[0]], Expanded(s[1..], false, mapping));
      EscapeOfPlain([s[0]]);
    } else if |s| > 1 {
      var r := ReferenceAt(s[1..], mapping);
      if r.expansion.Ok? {
        EscapedOf(s[1 + r.width..], mapping);
        BeforeEscaped(r.expansion.value.value, Expanded(s[1 + r.width..], false, mapping));
      }
    }
  }

  lemma {:induction false} BeforeEscaped(a: string, rest: Result<string, Error>)
    ensures Mapped(Before(a, rest)) == Before(Escape(a), Mapped(rest))
  {
    if rest.Ok? {
      EscapeConcat(a, rest.value);
    }
  }

  /** Text with every dollar sign doubled expands to the text. */
  lemma {:induction false} ExpandUndoesEscape(t: string, mapping: string -> Result<string, string>)
    ensures ExpandPlain(Escape(t), mapping) == Ok(t)
  {
    ExpandedEscape(t, Plainly(mapping));
  }

  lemma {:induction false} ExpandedEscape(t: string, mapping: Mapping)
    ensures Expanded(Escape(t), false, mapping) == Ok(t)
    decreases |t|
  {
    if t != [] {
      var rest := Escape(t[1..]);
      ExpandedEscape(t[1..], mapping);
      assert [t[0]] + t[1..] == t;
      if t[0] == '$' {
        DollarExpands(rest, false, mapping);
      } else {
        TextExpands([t[0]], rest, false, mapping);
      }
    }
  }

  // ----- with ninja variables -----

  /** The mapping as ninja sees it: its variables evaluated. */
  function Evaluated(mapping: Mapping, env: string -> string): Mapping {
    name =>
      match mapping(name)
      case Ok(e) => Ok(if e.ninjaVariable && Eval(e.value, env).Some? then Expansion(Eval(e.value, env).value, false) else e)
      case Err(m) => Err(m)
  }

  /** A name that some text looks up. */
  ghost predicate CanBeLookedUp(name: string) {
    Trimmed(name) && ')' !in name
  }

  ghost predicate IsVariable(mapping: Mapping, name: string) {
    CanBeLookedUp(name) && mapping(name).Ok? && mapping(name).value.ninjaVariable
  }

  ghost predicate DelimitedVariables(mapping: Mapping, env: string -> string) {
    forall name :: IsVariable(mapping, name) ==> Delimited(mapping(name).value.value, env)
  }

  ghost predicate ClosedVariables(mapping: Mapping) {
    forall name :: IsVariable(mapping, name) ==> Closed(mapping(name).value.value)
  }

  /** Ninja evaluates `r` to what `q` is, or both are the same error. */
  ghost predicate EvaluatesTo(r: Result<string, Error>, q: Result<string, Error>, env: string -> string) {
    match r
    case Err(e) => q == Err(e)
    case Ok(v) => q.Ok? && Eval(v, env) == Some(q.value)
  }

  /**
   * Ninja evaluates the escaped expansion to the plain expansion with the ninja variables'
   * values in place of the variables.
   */
  ghost predicate NinjaSees(s: string, mapping: Mapping, env: string -> string) {
    EvaluatesTo(ExpandNinjaEscaped(s, mapping), Expanded(s, false, Evaluated(mapping, env)), env)
  }

  lemma {:induction false} TrimSpaceTrims(s: string)
    ensures Trimmed(TrimSpace(s))
    ensures forall c :: c in TrimSpace(s) ==> c in s
  {
    TrimLeftTrims(s);
    TrimRightTrims(TrimLeft(s));
  }

  lemma {:induction false} TrimLeftTrims(s: string)
    ensures TrimLeft(s) != [] ==> !IsSpace(TrimLeft(s)[0])
    ensures forall c :: c in TrimLeft(s) ==> c in s
  {
    if s != [] && IsSpace(s[0]) {
      TrimLeftTrims(s[1..]);
    }
  }

  lemma {:induction false} TrimRightTrims(s: string)
    ensures TrimRight(s) <= s
    ensures TrimRight(s) != [] ==> !IsSpace(TrimRight(s)[|TrimRight(s)| - 1])
  {
    if s != [] && IsSpace(s[|s| - 1]) {
      TrimRightTrims(s[..|s| - 1]);
    }
  }

  /** A reference that is not `$$` looks up a name. */
  lemma {:induction false} LooksUp(s: string, mapping: Mapping)
    requires s != [] && ReferenceAt(s, mapping).expansion.Ok? && ReferenceAt(s, mapping).expansion.value.ninjaVariable
    ensures exists name :: IsVariable(mapping, name) && mapping(name) == Ok(ReferenceAt(s, mapping).expansion.value)
  {
    var closes := (c: char) => c == ')';
    var i := IndexFrom(s, 1, closes);
    IndexFromIsLeast(s, 1, closes);
    assert ')' !in s[1..i];
    TrimSpaceTrims(s[1..i]);
    assert IsVariable(mapping, TrimSpace(s[1..i]));
  }

  lemma {:induction false} NinjaSeesExpansion(s: string, mapping: Mapping, env: string -> string)
    requires DelimitedVariables(mapping, env)
    ensures NinjaSees(s, mapping, env)
    decreases |s|
  {
    if s != [] && s[0] != '$' {
      NinjaSeesExpansion(s[1..], mapping, env);
      var rest := Expanded(s[1..], true, mapping);
      if rest.Ok? {
        EvalChar(s[0], rest.value, env);
      }
    } else if |s| > 1 {
      var r, q := ReferenceAt(s[1..], mapping), ReferenceAt(s[1..], Evaluated(mapping, env));
      assert r.expansion.Ok? ==> q.expansion.Ok? && r.width == q.width;
      if r.expansion.Ok? {
        NinjaSeesExpansion(s[1 + r.width..], mapping, env);
        var rest := Expanded(s[1 + r.width..], true, mapping);
        if rest.Ok? {
          if r.expansion.value.ninjaVariable {
            LooksUp(s[1..], mapping);
          } else {
            EvalEscaped(r.expansion.value.value, rest.value, env);
          }
        }
      }
    }
  }

  lemma {:induction false} TrimmedStays(name: string)
    requires Trimmed(name)
    ensures TrimSpace(name) == name
  {
    TrimsSpaceAround("", name, "");
    assert "" + name + "" == name;
  }

  /** A variable followed by a text without dollar signs. */
  lemma {:induction false} VariableThenText(name: string, text: string, mapping: Mapping, env: string -> string)
    requires IsVariable(mapping, name) && '$' !in text
    ensures var v, s := mapping(name).value.value, "$(" + name + ")" + text;
            && ExpandNinjaEscaped(s, mapping) == Ok(v + text)
            && Expanded(s, false, Evaluated(mapping, env)) ==
                 Ok((if Eval(v, env).Some? then Eval(v, env).value else v) + text)
  {
    TrimmedStays(name);
    TextExpands(text, "", true, mapping);
    TextExpands(text, "", false, Evaluated(mapping, env));
    assert text + "" == text;
    ReferenceExpands(name, text, true, mapping);
    ReferenceExpands(name, text, false, Evaluated(mapping, env));
  }

  /** A variable that does not evaluate is already wrong on its own ... */
  lemma {:induction false} MalformedVariableFails(name: string, mapping: Mapping)
    requires IsVariable(mapping, name) && Eval(mapping(name).value.value, NoValues()).None?
    ensures !NinjaSees("$(" + name + ")" + "", mapping, NoValues())
  {
    var v := mapping(name).value.value;
    VariableThenText(name, "", mapping, NoValues());
    assert v + "" == v;
  }

  /** ... and one that ends in a bare variable is wrong with a letter after it. */
  lemma {:induction false} BareEndFails(name: string, mapping: Mapping)
    requires IsVariable(mapping, name)
    requires Eval(mapping(name).value.value, NoValues()).Some? && EndsBare(mapping(name).value.value)
    ensures !NinjaSees("$(" + name + ")" + "x", mapping, NoValues())
  {
    var v := mapping(name).value.value;
    VariableThenText(name, "x", mapping, NoValues());
    BareAbsorbs(v);
    assert |Eval(v, NoValues()).value + "x"| == |Eval(v, NoValues()).value| + 1;
  }

  lemma {:induction false} SeenVariableIsClosed(name: string, mapping: Mapping)
    requires IsVariable(mapping, name)
    requires forall s :: NinjaSees(s, mapping, NoValues())
    ensures Closed(mapping(name).value.value)
  {
    var v := mapping(name).value.value;
    if Eval(v, NoValues()).None? {
      MalformedVariableFails(name, mapping);
    } else if EndsBare(v) {
      BareEndFails(name, mapping);
    }
  }

  /** This holds of all texts exactly if no variable that can be looked up ends in a bare one. */
  lemma {:induction false} NinjaSeesExactly(mapping: Mapping)
    ensures (forall s, env: string -> string :: NinjaSees(s, mapping, env)) <==> ClosedVariables(mapping)
  {
    if ClosedVariables(mapping) {
      forall s, env: string -> string ensures NinjaSees(s, mapping, env) {
        forall name | IsVariable(mapping, name) ensures Delimited(mapping(name).value.value, env) {
          ClosedExactly(mapping(name).value.value);
        }
        NinjaSeesExpansion(s, mapping, env);
      }
    }
    if forall s, env: string -> string :: NinjaSees(s, mapping, env) {
      forall name | IsVariable(mapping, name) ensures Closed(mapping(name).value.value) {
        assert forall s :: NinjaSees(s, mapping, NoValues());
        SeenVariableIsClosed(name, mapping);
      }
    }
  }

  /** It fails for the bare "$in": "$(in)x" becomes "$inx", which is another variable. */
  lemma {:induction false} BareVariableFails(mapping: Mapping)
    requires mapping("in") == Ok(Expansion("$in", true))
    ensures ExpandNinjaEscaped("$(in)x", mapping) == Ok("$inx")
    ensures !NinjaSees("$(in)x", mapping, NoValues())
  {
    var name, v := "in", "$in";
    assert "$(" + name + ")" + "x" == "$(in)x" && v + "x" == "$inx";
    VariableThenText(name, "x", mapping, NoValues());
    InEndsBare(v);
    BareEndFails(name, mapping);
  }

  lemma {:induction false} InEndsBare(v: string)
    requires v == "$in"
    ensures Eval(v, NoValues()).Some? && EndsBare(v)
  {
    EvalBare("in", "", NoValues());
    assert "$" + "in" + "" == v;
    VarLengthOf("in", "");
    assert v[1..] == "in" + "";
  }
}
