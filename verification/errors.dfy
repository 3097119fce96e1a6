/** The validator's errors: the three sentinels, the rule violations created
    with `errors.New`, a violation wrapped with the name of the field it was
    found on, and `ValidationErrors.Error`, which renders a list of them. */
module ValidationErrors {
  import opened Strings

  datatype Error =
    | InvalidSyntax              // ErrInvalidValidatorSyntax
    | UnexportedField            // ErrValidateForUnexportedFields
    | LengthNotEqual
    | LessThanMin
    | BiggerThanMax
    | EmptyText
    | TextShorterThanMin
    | TextLongerThanMax
    | NotInSet
    | InField(name: seq<byte>, cause: Error)
  {
    /** The errors a rule evaluator creates with `errors.New`, as opposed to
        the sentinels and the field wrapper. */
    predicate IsViolation() {
      !InvalidSyntax? && !UnexportedField? && !InField?
    }
  }

  /** The message of `ErrNotStruct`, which `Validate` returns on its own, never inside a list. */
  const NotStructMessage: seq<byte> := Ascii("wrong argument given, should be a struct")

  const FieldPrefix: seq<byte> := Ascii("validation error: field ")
  const FieldSeparator: seq<byte> := Ascii(": ")

  /** `err.Error()`. A wrapped error renders as the `fmt.Errorf` format
      "validation error: field %s: %w" spells it: the field name after a
      fixed prefix, and the cause's own message at the end. */
  function Message(e: Error): (m: seq<byte>)
    ensures e.InField? ==>
      && |m| == |FieldPrefix| + |e.name| + |FieldSeparator| + |Message(e.cause)|
      && FieldPrefix <= m
      && m[|FieldPrefix| + |e.name|..|FieldPrefix| + |e.name| + |FieldSeparator|] == FieldSeparator
      && m[|FieldPrefix|..|FieldPrefix| + |e.name|] == e.name
      && m[|m| - |Message(e.cause)|..] == Message(e.cause)
  {
    match e
    case InvalidSyntax => Ascii("invalid validator syntax")
    case UnexportedField => Ascii("validation for unexported field is not allowed")
    case LengthNotEqual => Ascii("length of string is not equal")
    case LessThanMin => Ascii("value is less than allowed")
    case BiggerThanMax => Ascii("value is bigger than allowed")
    case EmptyText => Ascii("empty text")
    case TextShorterThanMin => Ascii("len of string is less than allowed")
    case TextLongerThanMax => Ascii("len of string is bigger than allowed")
    case NotInSet => Ascii("value not in a valid set")
    case InField(name, cause) => FieldPrefix + name + FieldSeparator + Message(cause)
  }

  function Messages(errs: seq<Error>): (ms: seq<seq<byte>>)
    ensures |ms| == |errs|
    ensures forall i :: 0 <= i < |errs| ==> ms[i] == Message(errs[i])
  {
    seq(|errs|, i requires 0 <= i < |errs| => Message(errs[i]))
  }

  /** The loop of `ValidationErrors.Error`: every message followed by a line break. */
  function Lines(errs: seq<Error>): (r: seq<byte>)
    ensures |errs| > 0 ==> Message(errs[0]) + [Newline] <= r && r[|r| - 1] == Newline
    ensures |errs| == 0 <==> r == []
  {
    if |errs| == 0 then []
    else Message(errs[0]) + [Newline] + Lines(errs[1..])
  }

  /** `ValidationErrors.Error`: a single error's message verbatim, otherwise
      one line per error, each ended by a line break. */
  function Render(errs: seq<Error>): (r: seq<byte>)
    ensures |errs| == 1 ==> r == Message(errs[0])
    ensures |errs| == 0 ==> r == []
    ensures |errs| > 1 ==> Message(errs[0]) + [Newline] <= r && r[|r| - 1] == Newline
  {
    if |errs| == 1 then Message(errs[0]) else Lines(errs)
  }

  lemma {:induction false} LinesAsJoin(errs: seq<Error>)
    ensures Lines(errs) == Join(Messages(errs) + [[]], Newline)
    decreases |errs|
  {
    if |errs| > 0 {
      LinesAsJoin(errs[1..]);
      var ms := Messages(errs) + [[]];
      assert ms[1..] == Messages(errs[1..]) + [[]];
    }
  }

  /** Apart from the single-error case, the rendering can be read back: its
      lines are the messages in order, followed by the empty remainder after
      the last line break. */
  lemma RenderReadsBack(errs: seq<Error>)
    requires |errs| != 1
    requires forall i :: 0 <= i < |errs| ==> Newline !in Message(errs[i])
    ensures Split(Render(errs), Newline) == Messages(errs) + [[]]
  {
    LinesAsJoin(errs);
    var ms := Messages(errs) + [[]];
    assert forall i :: 0 <= i < |ms| ==> Newline !in ms[i] by {
      forall i | 0 <= i < |ms|
        ensures Newline !in ms[i]
      {
        if i < |errs| {
          assert ms[i] == Message(errs[i]);
        }
      }
    }
    SplitJoin(ms, Newline);
  }
}
