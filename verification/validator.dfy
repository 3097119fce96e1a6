/** `Validate`: walks a record's fields in declaration order, evaluates the
    rule in each field's `validate` tag and gathers the failures. The walk is
    a fold whose state carries, besides the errors gathered so far, the
    verdict of the last evaluated field, because the source keeps that
    verdict in one variable declared outside the loop. */
module Validator {
  import opened Wrappers
  import opened Strings
  import opened ValidationErrors
  import opened Rules

  /** A struct field as reflection shows it: its name, whether it is
      exported, the value of its `validate` tag (empty when the tag is absent
      or empty, which `Tag.Get` does not tell apart), and its value. */
  datatype Field = Field(name: seq<byte>, exported: bool, tag: seq<byte>, value: Value)

  /** The argument of `Validate` once a pointer to it has been followed:
      either a struct with its fields, or anything else (a nil pointer, a
      pointer to a pointer, a non-struct value). */
  datatype Input = NotStruct | Struct(fields: seq<Field>)

  /** What `Validate` returns: nil, `ErrNotStruct`, or a non-empty `ValidationErrors`. */
  datatype Outcome = Valid | NotStructError | Invalid(errs: seq<Error>)

  const LenKind: seq<byte> := Ascii("len")
  const MinKind: seq<byte> := Ascii("min")
  const MaxKind: seq<byte> := Ascii("max")
  const InKind: seq<byte> := Ascii("in")

  /** The source indexes the second piece of the tag split on ':' without a
      check, so an annotated field that is reached needs a ':' in its tag. */
  predicate Splittable(f: Field) {
    f.tag == [] || !f.exported || Colon in f.tag
  }

  /** `strings.Split(tag, ":")` followed by `parts[0], parts[1]`: the rule kind
      is the text before the first ':', the argument the text between it and
      the next ':' (or the end of the tag). */
  function SplitTag(tag: seq<byte>): (kv: (seq<byte>, seq<byte>))
    requires Colon in tag
    ensures Colon !in kv.0 && Colon !in kv.1
    ensures kv.0 + [Colon] + kv.1 <= tag
    ensures |kv.0| + 1 + |kv.1| < |tag| ==> tag[|kv.0| + 1 + |kv.1|] == Colon
  {
    var parts := Split(tag, Colon);
    SplitCount(tag, Colon);
    JoinSplit(tag, Colon);
    assert Join(parts, Colon) == parts[0] + [Colon] + Join(parts[1..], Colon);
    var rest := parts[1..];
    assert |rest| > 1 ==> Join(rest, Colon) == rest[0] + [Colon] + Join(rest[1..], Colon);
    (parts[0], parts[1])
  }

  /** The `switch key` of `Validate`: the verdict of the named rule, or `None`
      for a kind the switch does not list. */
  function Evaluate(kind: seq<byte>, arg: seq<byte>, v: Value): (r: Option<Verdict>)
    ensures r.None? <==> kind !in {LenKind, MinKind, MaxKind, InKind}
    ensures kind == LenKind ==> r == Some(Eval(Len, v, arg))
    ensures kind == MinKind ==> r == Some(Eval(Min, v, arg))
    ensures kind == MaxKind ==> r == Some(Eval(Max, v, arg))
    ensures kind == InKind ==> r == Some(In(v, arg))
  {
    assert LenKind[0] != MinKind[0] && LenKind[0] != MaxKind[0] && MinKind[1] != MaxKind[1];
    if kind == LenKind then Some(Eval(Len, v, arg))
    else if kind == MinKind then Some(Eval(Min, v, arg))
    else if kind == MaxKind then Some(Eval(Max, v, arg))
    else if kind == InKind then Some(In(v, arg))
    else None
  }

  /** The state of the field loop: the last evaluated field's verdict and the
      errors gathered, or the errors returned after an unexported annotated field. */
  datatype State = Running(prev: Verdict, errs: seq<Error>) | Stopped(errs: seq<Error>)

  /** Before the loop `valErr` holds no error and `valErrs` is empty. */
  const Start: State := Running(Pass, [])

  /** One iteration of the field loop. An untagged field is skipped; an
      unexported annotated field appends `ErrValidateForUnexportedFields` and
      ends the loop; otherwise the tag's rule is evaluated (an unknown kind
      leaves the previous verdict in place), a failure other than the syntax
      error is wrapped with this field's name, and a failure is appended. */
  function Step(s: State, f: Field): (t: State)
    requires s.Stopped? || Splittable(f)
    ensures s.errs <= t.errs && |t.errs| <= |s.errs| + 1
    ensures |t.errs| == |s.errs| + 1 ==>
      && s.Running? && f.tag != []
      && var e := t.errs[|s.errs|];
         e == InvalidSyntax || (e.InField? && e.name == f.name) || (e == UnexportedField && t.Stopped?)
    ensures t.Running? ==> s.Running?
  {
    match s
    case Stopped(_) => s
    case Running(prev, errs) =>
      if f.tag == [] then s
      else if !f.exported then Stopped(errs + [UnexportedField])
      else
        var (kind, arg) := SplitTag(f.tag);
        var r := match Evaluate(kind, arg, f.value) case Some(r) => r case None => prev;
        var r' := if r.Fail? && r.err != InvalidSyntax then Fail(InField(f.name, r.err)) else r;
        Running(r', if r'.Fail? then errs + [r'.err] else errs)
  }

  /** Every annotated field that the loop reaches has a splittable tag: the
      loop stops at the first unexported annotated field, so nothing after it
      is constrained. */
  predicate TagsSplittable(fs: seq<Field>)
    decreases |fs|
  {
    |fs| == 0
    || (fs[0].tag != [] && !fs[0].exported)
    || (Splittable(fs[0]) && TagsSplittable(fs[1..]))
  }

  /** The field loop as a left fold of `Step`. It adds at most one error
      per field, and once stopped it is left unchanged. */
  function Run(s: State, fs: seq<Field>): (t: State)
    requires s.Stopped? || TagsSplittable(fs)
    ensures |t.errs| <= |s.errs| + |fs|
    ensures s.Stopped? ==> t == s
    decreases |fs|
  {
    if |fs| == 0 then s else Run(Step(s, fs[0]), fs[1..])
  }

  /** The rule in an annotated field's tag accepts the field's value; a field
      whose kind is not recognised is not judged by it. */
  predicate FieldPasses(f: Field)
    requires Colon in f.tag
  {
    var (kind, arg) := SplitTag(f.tag);
    match Evaluate(kind, arg, f.value)
    case None => true
    case Some(r) => r.Pass?
  }

  /** No annotated field is unexported and every recognised rule holds. */
  predicate AllPass(fs: seq<Field>) {
    forall i :: 0 <= i < |fs| && fs[i].tag != [] ==>
      fs[i].exported && Colon in fs[i].tag && FieldPasses(fs[i])
  }

  function Names(fs: seq<Field>): set<seq<byte>> {
    set i | 0 <= i < |fs| :: fs[i].name
  }

  /** Every reported error is the syntax sentinel, a failure wrapped with the
      name of one of the fields, or the unexported-field error, and that only last. */
  predicate Attributed(errs: seq<Error>, names: set<seq<byte>>) {
    forall k :: 0 <= k < |errs| ==>
      || errs[k] == InvalidSyntax
      || (errs[k].InField? && errs[k].name in names)
      || (errs[k] == UnexportedField && k == |errs| - 1)
  }

  /** `Validate`. A non-struct is rejected before any field is looked at; a
      struct gives nil exactly when no error was gathered. */
  function Validate(input: Input): (o: Outcome)
    requires input.Struct? ==> TagsSplittable(input.fields)
    ensures o == NotStructError <==> input.NotStruct?
    ensures o.Invalid? ==> |o.errs| > 0 && Attributed(o.errs, Names(input.fields))
    ensures o == Valid <==> input.Struct? && AllPass(input.fields)
    ensures input.Struct? && o.Invalid? ==> o.errs == Run(Start, input.fields).errs
  {
    match input
    case NotStruct => NotStructError
    case Struct(fs) =>
      var t := Run(Start, fs);
      RunValid(fs, []);
      RunAttributed(Start, fs, Names(fs));
      if |t.errs| > 0 then Invalid(t.errs) else Valid
  }

  /** The text of the `error` that `Validate` returns, when it returns one. */
  function ErrorText(o: Outcome): (m: seq<byte>)
    requires !o.Valid?
    ensures o.Invalid? && |o.errs| == 1 ==> m == Message(o.errs[0])
    ensures o.NotStructError? ==> m == NotStructMessage
    ensures o.Invalid? ==> m == Render(o.errs)
  {
    match o
    case NotStructError => NotStructMessage
    case Invalid(errs) => Render(errs)
  }

  // ---------------------------------------------------------------------------
  // Properties of the field loop

  /** The loop only ever appends: the errors gathered before it stay a prefix. */
  lemma {:induction false} RunExtends(s: State, fs: seq<Field>)
    requires s.Stopped? || TagsSplittable(fs)
    ensures s.errs <= Run(s, fs).errs
    ensures Run(s, fs).Running? ==> s.Running?
    decreases |fs|
  {
    if |fs| > 0 {
      RunExtends(Step(s, fs[0]), fs[1..]);
    }
  }

  /** Running the loop over two lists in turn is running it over their concatenation. */
  lemma {:induction false} RunConcat(s: State, a: seq<Field>, b: seq<Field>)
    requires s.Stopped? || TagsSplittable(a + b)
    ensures s.Stopped? || TagsSplittable(a)
    ensures Run(s, a).Stopped? || TagsSplittable(b)
    ensures Run(s, a + b) == Run(Run(s, a), b)
    decreases |a|
  {
    if |a| == 0 {
      assert a + b == b;
    } else {
      assert (a + b)[0] == a[0] && (a + b)[1..] == a[1..] + b;
      var s' := Step(s, a[0]);
      RunConcat(s', a[1..], b);
    }
  }

  /** Starting from a passing previous verdict, the loop adds no error exactly
      when every annotated field is exported and passes its rule. */
  lemma {:induction false} RunValid(fs: seq<Field>, errs: seq<Error>)
    requires TagsSplittable(fs)
    ensures Run(Running(Pass, errs), fs).errs == errs <==> AllPass(fs)
    decreases |fs|
  {
    if |fs| > 0 {
      var s := Running(Pass, errs);
      var f := fs[0];
      var t := Step(s, f);
      assert forall i :: 1 <= i < |fs| ==> fs[i] == fs[1..][i - 1];
      assert AllPass(fs) ==> AllPass(fs[1..]);
      if f.tag == [] {
        RunValid(fs[1..], errs);
        assert AllPass(fs[1..]) ==> AllPass(fs);
      } else if !f.exported {
        assert !AllPass(fs);
      } else if t == s {
        assert FieldPasses(f);
        RunValid(fs[1..], errs);
        assert AllPass(fs[1..]) ==> AllPass(fs);
      } else {
        assert !FieldPasses(f);
        RunExtends(t, fs[1..]);
        assert !AllPass(fs);
      }
    }
  }

  lemma {:induction false} RunAttributed(s: State, fs: seq<Field>, names: set<seq<byte>>)
    requires s.Stopped? || TagsSplittable(fs)
    requires Attributed(s.errs, names) && (s.Running? ==> UnexportedField !in s.errs)
    requires forall i :: 0 <= i < |fs| ==> fs[i].name in names
    ensures Attributed(Run(s, fs).errs, names)
    decreases |fs|
  {
    if |fs| > 0 {
      var t := Step(s, fs[0]);
      assert forall i :: 1 <= i < |fs| ==> fs[i] == fs[1..][i - 1];
      assert forall k :: 0 <= k < |s.errs| ==> t.errs[k] == s.errs[k];
      if t.Running? {
        assert UnexportedField !in t.errs;
      }
      RunAttributed(t, fs[1..], names);
    }
  }

  /** A field without a `validate` tag changes nothing, wherever it stands. */
  lemma UntaggedFieldIgnored(pre: seq<Field>, f: Field, post: seq<Field>)
    requires f.tag == []
    requires TagsSplittable(pre + [f] + post)
    ensures TagsSplittable(pre + post)
    ensures Validate(Struct(pre + [f] + post)) == Validate(Struct(pre + post))
  {
    assert pre + [f] + post == pre + ([f] + post);
    RunConcat(Start, pre, [f] + post);
    var s := Run(Start, pre);
    RunConcat(s, [f], post);
    assert Run(s, [f]) == s;
    SplittableAfterRun(Start, pre, post);
    RunConcat(Start, pre, post);
  }

  /** The splittability of a concatenation, from that of its parts when the
      loop is still running after the first. */
  lemma {:induction false} SplittableAfterRun(s: State, a: seq<Field>, b: seq<Field>)
    requires s.Running? && TagsSplittable(a)
    requires Run(s, a).Stopped? || TagsSplittable(b)
    ensures TagsSplittable(a + b)
    decreases |a|
  {
    if |a| == 0 {
      assert a + b == b;
    } else {
      assert (a + b)[0] == a[0] && (a + b)[1..] == a[1..] + b;
      var t := Step(s, a[0]);
      if !(a[0].tag != [] && !a[0].exported) {
        assert t.Running?;
        SplittableAfterRun(t, a[1..], b);
      }
    }
  }

  /** The first unexported annotated field ends validation: the result is the
      errors gathered before it plus `ErrValidateForUnexportedFields`, and no
      later field is looked at (their tags need not even be splittable). */
  lemma UnexportedFieldStops(pre: seq<Field>, f: Field, post: seq<Field>)
    requires f.tag != [] && !f.exported
    requires TagsSplittable(pre) && Run(Start, pre).Running?
    ensures TagsSplittable(pre + [f] + post)
    ensures Validate(Struct(pre + [f] + post)) == Invalid(Run(Start, pre).errs + [UnexportedField])
  {
    assert pre + [f] + post == pre + ([f] + post);
    assert TagsSplittable([f] + post);
    SplittableAfterRun(Start, pre, [f] + post);
    RunConcat(Start, pre, [f] + post);
    var s := Run(Start, pre);
    RunConcat(s, [f], post);
  }

  /** Errors appear in field order: those of a leading part of the fields
      come first, unchanged, whatever fields follow. */
  lemma ErrorsInFieldOrder(pre: seq<Field>, post: seq<Field>)
    requires TagsSplittable(pre + post)
    ensures TagsSplittable(pre)
    ensures Run(Start, pre).errs <= Run(Start, pre + post).errs
  {
    RunConcat(Start, pre, post);
    RunExtends(Run(Start, pre), post);
  }

  /** After any leading fields that do not stop the loop, a field with a
      recognised rule appends its failure (wrapped with the field's name
      unless it is the syntax error) and nothing when it passes; either way
      its own verdict becomes the one carried on. */
  lemma KnownRuleAppends(pre: seq<Field>, f: Field)
    requires TagsSplittable(pre) && Run(Start, pre).Running?
    requires f.tag != [] && f.exported && Colon in f.tag
    requires Evaluate(SplitTag(f.tag).0, SplitTag(f.tag).1, f.value).Some?
    ensures TagsSplittable(pre + [f])
    ensures var errs := Run(Start, pre).errs;
      var r := Evaluate(SplitTag(f.tag).0, SplitTag(f.tag).1, f.value).value;
      && (r.Pass? ==> Run(Start, pre + [f]) == Running(Pass, errs))
      && (r == Fail(InvalidSyntax) ==> Run(Start, pre + [f]) == Running(r, errs + [InvalidSyntax]))
      && (r.Fail? && r.err != InvalidSyntax ==>
            Run(Start, pre + [f]) == Running(Fail(InField(f.name, r.err)), errs + [InField(f.name, r.err)]))
  {
    SplittableAfterRun(Start, pre, [f]);
    RunConcat(Start, pre, [f]);
  }

  /** After any leading fields that do not stop the loop, a field whose rule
      kind is not recognised replays the verdict carried from the last
      evaluated field: nothing when that passed, the syntax error again, or
      the previous error wrapped once more, now with this field's name. */
  lemma UnknownRuleReplays(pre: seq<Field>, f: Field)
    requires TagsSplittable(pre) && Run(Start, pre).Running?
    requires f.tag != [] && f.exported && Colon in f.tag
    requires SplitTag(f.tag).0 !in {LenKind, MinKind, MaxKind, InKind}
    ensures TagsSplittable(pre + [f])
    ensures var s := Run(Start, pre);
      && (s.prev.Pass? ==> Run(Start, pre + [f]) == s)
      && (s.prev == Fail(InvalidSyntax) ==> Run(Start, pre + [f]) == Running(s.prev, s.errs + [InvalidSyntax]))
      && (s.prev.Fail? && s.prev.err != InvalidSyntax ==>
            Run(Start, pre + [f]) == Running(Fail(InField(f.name, s.prev.err)), s.errs + [InField(f.name, s.prev.err)]))
  {
    SplittableAfterRun(Start, pre, [f]);
    RunConcat(Start, pre, [f]);
  }

  /** A field with an unrecognised rule right after a field that failed
      reports that failure a second time, wrapped in both fields' names. */
  lemma UnknownRuleAfterFailure(a: Field, b: Field, e: Error)
    requires a.tag != [] && a.exported && Colon in a.tag
    requires Evaluate(SplitTag(a.tag).0, SplitTag(a.tag).1, a.value) == Some(Fail(e)) && e != InvalidSyntax
    requires b.tag != [] && b.exported && Colon in b.tag
    requires SplitTag(b.tag).0 !in {LenKind, MinKind, MaxKind, InKind}
    ensures TagsSplittable([a, b])
    ensures Validate(Struct([a, b])) == Invalid([InField(a.name, e), InField(b.name, InField(a.name, e))])
  {
    assert [a, b][1..] == [b];
    assert [a, b] == [a] + [b];
    KnownRuleAppends([], a);
    assert [] + [a] == [a];
    UnknownRuleReplays([a], b);
  }
}
