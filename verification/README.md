# validator — a Dafny model of struct-tag validation

This project models `validator.go`, a Go library that validates a struct from
its fields' `validate:"kind:argument"` tags. The kind is one of `len`, `min`,
`max` or `in`. The model covers:

- the splitting of a tag into a rule kind and an argument;
- the parsing of integer arguments with `strconv.Atoi` / `strconv.ParseInt`;
- the four rule evaluators, each recursing into slices;
- the `Validate` loop over the fields, which gathers errors;
- `ValidationErrors.Error`, which renders the gathered errors.

Reflection is replaced by plain data. A struct is a list of field descriptors
(`Validator.Field`: name, exported flag, tag value, value). A value is a closed
variant `Int | Text | Slice | Other` (`Rules.Value`). Go strings are byte
sequences, so text, tags, field names and messages are all `seq<byte>`.

Modules, one per file:

| file | module | what it holds |
|---|---|---|
| wrappers.dfy | `Wrappers` | `Option` |
| strings.dfy | `Strings` | bytes, `Split` / `Join` as `strings.Split` / `strings.Join` do them |
| strconv.dfy | `Strconv` | `ParseUint`, `ParseInt`, `Atoi` (with its short-input fast path) for base 10 and 64 bits; `FormatInt` as their inverse |
| errors.dfy | `ValidationErrors` | the error kinds, their messages, `ValidationErrors.Error` |
| rules.dfy | `Rules` | `validateLen` / `validateMin` / `validateMax` (`Eval`), `validateIn` (`In`) |
| validator.dfy | `Validator` | `Validate`, as a fold of `Step` over the fields |
| examples.dfy | `Examples` | small worked instances of the rules |

Behaviour that follows the code and may be surprising:

- `len`, `min` and `max` measure text in bytes (`len(v.String())`), not in characters.
- The `len` argument may be negative. `strconv.Atoi` accepts it, and no text then has that length.
- An unexported field that carries a tag ends validation. The errors already
  gathered are kept, and `ErrValidateForUnexportedFields` is appended to them.
- `valErr` is declared once, before the field loop, and is never reset.
  So a tag with an unrecognised kind is not a no-op: it replays the previous
  evaluated field's verdict. If that verdict was a failure, it is appended
  again, and a non-syntax error is wrapped a second time, with the current
  field's name (`Validator.UnknownRuleReplays`).
- Under `in`, only a passing element sets the match flag. So an empty slice
  fails with "value not in a valid set", and so does any kind other than
  integer, string or slice.
- Under `in` on an integer, every candidate is parsed. A candidate that does
  not parse gives a syntax error even when an earlier candidate matched.
- The argument of `len`, `min` and `max` is parsed before the value's kind is
  looked at. A bad argument is therefore a syntax error even for kinds that
  those rules otherwise ignore.

## Model

| member | source | states |
|---|---|---|
| `Strings.Split` | validator.go:164 | every piece is free of the separator and there is at least one piece, as `strings.Split` gives for a non-empty separator |
| `Strings.SplitCount` | validator.go:236 | there is exactly one more piece than separators, so a tag with a `:` has the second piece `parts[1]` needs |
| `Strings.JoinSplit` | validator.go:164 | joining the pieces with the separator gives back the split string |
| `Strings.SplitJoin` | validator.go:164 | splitting a join of separator-free pieces gives back the pieces (with `JoinSplit`, split and join are inverse) |
| `Strconv.Accumulate` | validator.go:71 | the digit loop with Go's overflow cutoff succeeds exactly when every byte is a digit and the decimal value fits in 64 unsigned bits, and then yields that value |
| `Strconv.ParseUint` | validator.go:71 | the empty string is rejected; otherwise as `Accumulate` |
| `Strconv.ParseInt` | validator.go:71 | accepts exactly an optional `+`/`-` followed by one or more digits whose signed value lies in the int64 range, and returns that value |
| `Strconv.Atoi` | validator.go:39 | with a 64-bit `int`, the fast path for 1 to 18 bytes (one optional sign, at least one digit after it, only digits) and the fallback to `ParseInt` together accept exactly the well-formed strings whose value fits in 64 bits, return that value, and agree with `ParseInt` on every input; its digit loop `Strconv.FastDigits` succeeds exactly on all-digit input, with its decimal value |
| `Strconv.ParseFormatInt` | validator.go:114 | every int64, written in decimal, parses back to itself |
| `ValidationErrors.Message` | validator.go:255 | a field-wrapped error's message is the prefix "validation error: field ", the field name, the separator ": ", then the cause's own message |
| `ValidationErrors.Lines` | validator.go:29-31 | each message is followed by a line break; the text is empty exactly for no errors, and otherwise starts with the first message's line and ends with a line break |
| `ValidationErrors.Render` | validator.go:21-33 | one error renders as its message verbatim; no errors render as the empty string; more start with the first message's line and end with a line break |
| `ValidationErrors.RenderReadsBack` | validator.go:21-33 | for zero or several errors whose messages hold no line break (always so for Go field names), the rendering split at line breaks is exactly the messages in order, then an empty remainder |
| `ValidationErrors.LinesAsJoin` | validator.go:29-31 | the text of the loop is every message, in order, each followed by `"\n"` (the messages plus a final empty piece, joined with line breaks) |
| `Rules.Check` | validator.go:56-146 | on a non-slice value: `min`/`max` fail on an integer exactly when it is below/above the bound (with their messages); `len` fails on text exactly when the byte length differs; `min`/`max` fail on empty text with "empty text" and otherwise exactly when the byte length is out of bounds; other kinds and `len` on integers never fail |
| `Rules.Eval` | validator.go:35-151 | an argument that does not parse gives exactly the syntax error, whatever the value; otherwise the verdict passes exactly when the value meets the rule (`Holds`: a slice when all its elements do, to any depth), and a failure is one of that rule's violations; a value that is not a slice gets exactly `Check`'s verdict, with its message |
| `Rules.EvalEach` | validator.go:48-54 | the slice loop passes exactly when every element meets the rule, and reports only that rule's violations |
| `Rules.EvalSliceFirstFailure` | validator.go:80-86 | on a slice, a numeric rule passes exactly when every element passes (so an empty slice passes); otherwise its verdict is the first failing element's, unchanged |
| `Rules.ScanInts` | validator.go:178-189 | the candidate loop fails with a syntax error exactly when some candidate does not parse, regardless of earlier matches; otherwise it reports whether some candidate equals the integer |
| `Rules.In` | validator.go:153-207 | an empty argument is a syntax error; otherwise the verdict passes exactly when the value is in the comma-split set (`InHolds`: an integer when all candidates parse and one equals it, text when byte-equal to a candidate, a slice when non-empty and every element is, never another kind); failures are the syntax error or "not in a valid set"; on a non-slice the syntax error occurs exactly for an integer with an unparsable candidate; an empty slice fails with "value not in a valid set" |
| `Rules.InEach` | validator.go:168-176 | the slice loop of `in` passes exactly when every element is in the set |
| `Rules.InSliceFirstFailure` | validator.go:168-203 | on a slice, `in` passes exactly when the slice is non-empty and every element passes; a failure on a non-empty slice is the first failing element's verdict, unchanged |
| `Validator.SplitTag` | validator.go:236-238 | the rule kind and the argument are colon-free, the tag starts with kind, `:`, argument, and the argument ends at the tag's end or at a second `:` |
| `Validator.Evaluate` | validator.go:240-250 | `len` runs the length rule, `min` the minimum rule, `max` the maximum rule and `in` the set rule, each on the field's value and the tag's argument; any other kind selects nothing |
| `Validator.Step` | validator.go:220-259 | one field appends at most one error, never removes one, and an appended error is the syntax error, a failure wrapped with this field's name, or the unexported-field error that ends the loop |
| `Validator.Run` | validator.go:220-261 | the field loop as a fold of `Step`: it adds at most one error per field, and once stopped by an unexported annotated field it changes nothing |
| `Validator.Validate` | validator.go:209-269 | a non-struct gives `ErrNotStruct` and nothing else does; the result is nil exactly when every annotated field is exported and passes its recognised rule; otherwise the errors are non-empty, each being the syntax error, a failure wrapped with a field's name, or the unexported-field error as the last one; those errors are exactly the ones the field loop `Run` gathers, all of them and in field order, so `RunConcat`, `ErrorsInFieldOrder`, `KnownRuleAppends` and `UnknownRuleReplays` describe them |
| `Validator.ErrorText` | validator.go:263-267 | the returned error's text: `ErrNotStruct`'s message, or `ValidationErrors.Error` of the gathered errors (a single error's message verbatim, several read back by `RenderReadsBack`) |
| `Validator.RunExtends` | validator.go:258 | the loop only appends to the errors gathered before it, and once stopped it stays stopped |
| `Validator.RunConcat` | validator.go:220-261 | running the loop over two field lists in turn equals running it over their concatenation |
| `Validator.RunValid` | validator.go:263-267 | from a passing previous verdict the loop adds no error exactly when every annotated field is exported and passes its rule |
| `Validator.RunAttributed` | validator.go:252-259 | every error the loop gathers is the syntax error, a failure wrapped with one of the fields' names, or the unexported-field error as the last one |
| `Validator.UntaggedFieldIgnored` | validator.go:224-228 | inserting a field without a tag anywhere leaves the result of `Validate` unchanged |
| `Validator.UnexportedFieldStops` | validator.go:230-234 | the first unexported annotated field makes the result the errors gathered before it plus `ErrValidateForUnexportedFields`, whatever fields follow, even ones whose tags cannot be split |
| `Validator.ErrorsInFieldOrder` | validator.go:220-261 | the errors of a leading part of the fields are a prefix of the errors of the whole |
| `Validator.KnownRuleAppends` | validator.go:240-259 | after fields that do not stop the loop, a field with a recognised rule appends nothing on a pass, the syntax error unwrapped, any other failure wrapped with the field's name, and its own verdict becomes the carried one |
| `Validator.UnknownRuleReplays` | validator.go:212-259 | after fields that do not stop the loop, a field with an unrecognised kind replays the carried verdict: nothing after a pass, the syntax error again, or the previous error wrapped again with this field's name |
| `Validator.UnknownRuleAfterFailure` | validator.go:212-259 | a failing field followed by one with an unrecognised kind yields two errors: the failure wrapped with the first name, then that wrapped error wrapped again with the second name |
| `Examples.LenOnText` | validator.go:56-61 | `len:3` rejects "hi" with "length of string is not equal" and accepts "abc" |
| `Examples.MinMaxOnInts` | validator.go:88-92 | `min:5` rejects 4 and accepts 5; `max:5` rejects 6 and accepts 5 |

## Left out

- Reflection (`reflect.Indirect`, `Type().Field`, `Tag.Get`, `IsExported`, `Kind`) is replaced by `Validator.Input` and `Validator.Field`. A nil pointer, a pointer to a pointer and any non-struct become `NotStruct`.
- An absent `validate` tag and an empty one both become the empty tag, as `Tag.Get` returns `""` for both. The quoting syntax of Go struct tags is not modelled.
- Unsigned integers, floats, booleans, arrays, maps, pointers and structs become `Other`. The rules never inspect these kinds. The model lets a slice hold elements of different kinds, which Go's typed slices cannot.
- A tag without `:` makes the source panic with an index out of range. The model requires `Validator.TagsSplittable` instead. It constrains only the fields the loop reaches: fields after the first unexported annotated field are never looked at.
- Errors are a datatype rendered by `ValidationErrors.Message`. Error identity, and the `%w` unwrap chain of `fmt.Errorf`, are not modelled. The one identity test in the source, against `ErrInvalidValidatorSyntax`, is datatype equality here.
- `strconv` tells a range error from a syntax error. The source only asks whether an error occurred, so both become `None`.
- `int` is taken to be 64 bits wide. So `Atoi` takes its fast path for 1 to 18 bytes and otherwise calls `ParseInt(s, 10, 64)`, and `int(min)` / `int(max)` keep the int64 value.
- Text is bytes. UTF-8 decoding and code points play no part, because the source measures `len` of a string in bytes.
- Calling `Validate` twice on the same input gives the same result, since it is a function here. No lemma states this.
