/** Worked instances of the validator's behaviour on small inputs. */
module Examples {
  import opened Strings
  import opened Strconv
  import opened ValidationErrors
  import opened Rules

  lemma LenOnText()
    ensures Eval(Len, Text(Ascii("hi")), Ascii("3")) == Fail(LengthNotEqual)
    ensures Eval(Len, Text(Ascii("abc")), Ascii("3")) == Pass
  {
  }

  lemma MinMaxOnInts()
    ensures Eval(Min, Int(4), Ascii("5")) == Fail(LessThanMin)
    ensures Eval(Min, Int(5), Ascii("5")) == Pass
    ensures Eval(Max, Int(6), Ascii("5")) == Fail(BiggerThanMax)
    ensures Eval(Max, Int(5), Ascii("5")) == Pass
  {
  }
}
