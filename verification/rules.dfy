/** The four rule evaluators `validateLen`, `validateMin`, `validateMax` and
    `validateIn`, over a closed value type that stands for what reflection
    hands them. A verdict is the `ValidationError` they return: `Pass` when
    its `Err` is nil. */
module Rules {
  import opened Wrappers
  import opened Strings
  import opened Strconv
  import opened ValidationErrors

  /** A field value by its reflected kind: a signed integer of any width, a
      string (its bytes), a slice (of any element kind, to any depth), or any
      other kind, which the rules do not inspect. */
  datatype Value = Int(i: int64) | Text(t: seq<byte>) | Slice(elems: seq<Value>) | Other

  datatype Verdict = Pass | Fail(err: Error)

  /** The rules whose argument is one base-10 integer. */
  datatype Rule = Len | Min | Max

  /** What `rule` with bound `n` demands of a value, stated independently of
      the order in which the evaluator looks at it: `len` fixes the byte
      length of text, `min` and `max` bound integers and the byte length of
      non-empty text, a slice meets a rule when every element does, and no
      other kind is constrained. */
  predicate Holds(rule: Rule, v: Value, n: int64)
    decreases v
  {
    match v
    case Int(x) => (rule == Min ==> x >= n) && (rule == Max ==> x <= n)
    case Text(t) =>
      (match rule
       case Len => |t| == n as int
       case Min => |t| > 0 && |t| >= n as int
       case Max => |t| > 0 && |t| <= n as int)
    case Slice(es) => forall i :: 0 <= i < |es| ==> Holds(rule, es[i], n)
    case Other => true
  }

  /** The non-slice cases of the three numeric rules, once the argument has parsed to `n`. */
  function Check(rule: Rule, v: Value, n: int64): (r: Verdict)
    requires !v.Slice?
    ensures r.Pass? <==> Holds(rule, v, n)
    ensures v.Int? && r.Fail? ==> rule != Len && r.err == (if rule == Min then LessThanMin else BiggerThanMax)
    ensures v.Text? && rule != Len && |v.t| == 0 ==> r == Fail(EmptyText)
    ensures v.Text? && |v.t| > 0 && r.Fail? ==>
      r.err == (match rule case Len => LengthNotEqual case Min => TextShorterThanMin case Max => TextLongerThanMax)
  {
    match v
    case Int(x) =>
      if rule == Min && x < n then Fail(LessThanMin)
      else if rule == Max && x > n then Fail(BiggerThanMax)
      else Pass
    case Text(t) =>
      (match rule
       case Len => if |t| != n as int then Fail(LengthNotEqual) else Pass
       case Min =>
         if |t| == 0 then Fail(EmptyText)
         else if |t| < n as int then Fail(TextShorterThanMin)
         else Pass
       case Max =>
         if |t| == 0 then Fail(EmptyText)
         else if |t| > n as int then Fail(TextLongerThanMax)
         else Pass)
    case Other => Pass
  }

  /** The violations a numeric rule can report. */
  predicate IsViolationOf(rule: Rule, e: Error) {
    match rule
    case Len => e == LengthNotEqual
    case Min => e in {LessThanMin, EmptyText, TextShorterThanMin}
    case Max => e in {BiggerThanMax, EmptyText, TextLongerThanMax}
  }

  /** `validateLen`, `validateMin` and `validateMax`. The argument is parsed
      first (`strconv.Atoi` for `len`, `strconv.ParseInt(s, 10, 64)` for the
      other two, which accept the same strings), so a bad argument is a
      syntax error whatever the value's kind; a slice is checked element by
      element with the same argument. */
  function Eval(rule: Rule, v: Value, arg: seq<byte>): (r: Verdict)
    ensures ParseInt(arg).None? ==> r == Fail(InvalidSyntax)
    ensures ParseInt(arg).Some? ==> (r.Pass? <==> Holds(rule, v, ParseInt(arg).value))
    ensures ParseInt(arg).Some? && r.Fail? ==> IsViolationOf(rule, r.err)
    ensures ParseInt(arg).Some? && !v.Slice? ==> r == Check(rule, v, ParseInt(arg).value)
    decreases v
  {
    match if rule == Len then Atoi(arg) else ParseInt(arg)
    case None => Fail(InvalidSyntax)
    case Some(n) =>
      match v
      case Slice(es) => EvalEach(rule, es, arg)
      case _ => Check(rule, v, n)
  }

  /** The slice loop: the first element that fails decides, unchanged. */
  function EvalEach(rule: Rule, es: seq<Value>, arg: seq<byte>): (r: Verdict)
    requires ParseInt(arg).Some?
    ensures r.Pass? <==> forall i :: 0 <= i < |es| ==> Holds(rule, es[i], ParseInt(arg).value)
    ensures r.Fail? ==> IsViolationOf(rule, r.err)
    decreases es
  {
    if |es| == 0 then Pass
    else
      var head := Eval(rule, es[0], arg);
      if head.Fail? then head
      else
        var rest := EvalEach(rule, es[1..], arg);
        assert forall i :: 1 <= i < |es| ==> es[i] == es[1..][i - 1];
        rest
  }

  /** One turn of the slice loop: the head's failure, or the rest's verdict. */
  lemma EvalSliceStep(rule: Rule, es: seq<Value>, arg: seq<byte>)
    requires ParseInt(arg).Some? && |es| > 0
    ensures Eval(rule, Slice(es), arg) ==
      if Eval(rule, es[0], arg).Fail? then Eval(rule, es[0], arg) else Eval(rule, Slice(es[1..]), arg)
  {
  }

  /** On a slice, a numeric rule passes exactly when every element passes;
      otherwise its verdict is that of the first failing element. */
  lemma {:induction false} EvalSliceFirstFailure(rule: Rule, es: seq<Value>, arg: seq<byte>)
    requires ParseInt(arg).Some?
    ensures Eval(rule, Slice(es), arg).Pass? <==> forall i :: 0 <= i < |es| ==> Eval(rule, es[i], arg).Pass?
    ensures Eval(rule, Slice(es), arg).Fail? ==>
      exists k :: 0 <= k < |es| && Eval(rule, Slice(es), arg) == Eval(rule, es[k], arg)
        && forall j :: 0 <= j < k ==> Eval(rule, es[j], arg).Pass?
    decreases |es|
  {
    if |es| > 0 {
      EvalSliceStep(rule, es, arg);
      var tail := es[1..];
      EvalSliceFirstFailure(rule, tail, arg);
      assert forall j :: 1 <= j < |es| ==> es[j] == tail[j - 1];
      if Eval(rule, es[0], arg).Fail? {
        assert Eval(rule, Slice(es), arg) == Eval(rule, es[0], arg);
      } else if Eval(rule, Slice(es), arg).Fail? {
        var k :| 0 <= k < |tail| && Eval(rule, Slice(tail), arg) == Eval(rule, tail[k], arg)
          && forall j :: 0 <= j < k ==> Eval(rule, tail[j], arg).Pass?;
        assert Eval(rule, Slice(es), arg) == Eval(rule, es[k + 1], arg);
      }
    }
  }

  /** Every candidate of an `in` list parses as an integer. */
  predicate AllParse(cands: seq<seq<byte>>) {
    forall k :: 0 <= k < |cands| ==> ParseInt(cands[k]).Some?
  }

  /** What `in` with candidates `cands` demands, independently of the scan
      order: an integer needs every candidate to parse and one of them to
      equal it, text must equal a candidate byte for byte, a slice must be
      non-empty with every element in the set, and no other kind is ever in it. */
  predicate InHolds(v: Value, cands: seq<seq<byte>>)
    decreases v
  {
    match v
    case Int(x) => AllParse(cands) && exists k :: 0 <= k < |cands| && ParseInt(cands[k]) == Some(x)
    case Text(t) => t in cands
    case Slice(es) => |es| > 0 && forall i :: 0 <= i < |es| ==> InHolds(es[i], cands)
    case Other => false
  }

  /** The candidate loop of `validateIn` on an integer: every candidate is
      parsed, a bad one ends the loop with `None` (a syntax error) even after a
      match, and otherwise the result says whether some candidate matched. */
  function ScanInts(x: int64, cands: seq<seq<byte>>): (r: Option<bool>)
    ensures r.None? <==> !AllParse(cands)
    ensures r.Some? ==> (r.value <==> exists k :: 0 <= k < |cands| && ParseInt(cands[k]) == Some(x))
    decreases |cands|
  {
    if |cands| == 0 then Some(false)
    else
      match ParseInt(cands[0])
      case None => None
      case Some(c) =>
        var rest := ScanInts(x, cands[1..]);
        assert forall k :: 1 <= k < |cands| ==> cands[k] == cands[1..][k - 1];
        match rest
        case None => None
        case Some(found) => Some(found || c == x)
  }

  /** `validateIn`: an empty argument is a syntax error; otherwise the
      argument is split on ',' into candidates. A slice is checked element by
      element and, since only a passing element sets the match flag, an empty
      slice fails; an integer is looked up among the parsed candidates; text
      among the candidates themselves; any other kind never matches. */
  function In(v: Value, arg: seq<byte>): (r: Verdict)
    ensures arg == [] ==> r == Fail(InvalidSyntax)
    ensures arg != [] ==> (r.Pass? <==> InHolds(v, Split(arg, Comma)))
    ensures r.Fail? ==> r.err == InvalidSyntax || r.err == NotInSet
    ensures arg != [] && !v.Slice? ==>
      (r == Fail(InvalidSyntax) <==> v.Int? && !AllParse(Split(arg, Comma)))
    ensures arg != [] && v == Slice([]) ==> r == Fail(NotInSet)
    decreases v
  {
    if arg == [] then Fail(InvalidSyntax)
    else
      var cands := Split(arg, Comma);
      match v
      case Slice(es) =>
        var each := InEach(es, arg);
        if each.Fail? then each
        else if |es| == 0 then Fail(NotInSet)
        else Pass
      case Int(x) =>
        (match ScanInts(x, cands)
         case None => Fail(InvalidSyntax)
         case Some(found) => if found then Pass else Fail(NotInSet))
      case Text(t) => if t in cands then Pass else Fail(NotInSet)
      case Other => Fail(NotInSet)
  }

  /** The slice loop of `validateIn`: the first element that fails decides, unchanged. */
  function InEach(es: seq<Value>, arg: seq<byte>): (r: Verdict)
    requires arg != []
    ensures r.Pass? <==> forall i :: 0 <= i < |es| ==> InHolds(es[i], Split(arg, Comma))
    ensures r.Fail? ==> r.err == InvalidSyntax || r.err == NotInSet
    decreases es
  {
    if |es| == 0 then Pass
    else
      var head := In(es[0], arg);
      if head.Fail? then head
      else
        var rest := InEach(es[1..], arg);
        assert forall i :: 1 <= i < |es| ==> es[i] == es[1..][i - 1];
        rest
  }

  /** On a non-empty slice, `in` passes exactly when every element passes;
      otherwise its verdict is that of the first failing element. */
  lemma {:induction false} InSliceFirstFailure(es: seq<Value>, arg: seq<byte>)
    requires arg != []
    ensures In(Slice(es), arg).Pass? <==> |es| > 0 && forall i :: 0 <= i < |es| ==> In(es[i], arg).Pass?
    ensures In(Slice(es), arg).Fail? && |es| > 0 ==>
      exists k :: 0 <= k < |es| && In(Slice(es), arg) == In(es[k], arg)
        && forall j :: 0 <= j < k ==> In(es[j], arg).Pass?
    decreases |es|
  {
    if |es| > 0 && In(es[0], arg).Pass? {
      InSliceFirstFailure(es[1..], arg);
      assert forall j :: 1 <= j < |es| ==> es[j] == es[1..][j - 1];
      if |es| > 1 && In(Slice(es), arg).Fail? {
        assert In(Slice(es), arg) == InEach(es[1..], arg) == In(Slice(es[1..]), arg);
        var k :| 0 <= k < |es[1..]| && In(Slice(es[1..]), arg) == In(es[1..][k], arg)
          && forall j :: 0 <= j < k ==> In(es[1..][j], arg).Pass?;
        assert es[1..][k] == es[k + 1];
      }
    }
  }
}
