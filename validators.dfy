/** The WTForms validator chain, as the form classes of app/forms declare it.
    A field runs its validators in order. `DataRequired` and `Optional` can
    stop the chain: `DataRequired` on blank data replaces the field's errors
    with its own and stops; `Optional` on blank data clears the errors and
    stops, so the field is valid. Every other validator adds an error when it
    fails and lets the chain go on. Inline `validate_<field>` methods run
    after the declared validators. A field is valid when no error is left. */
module Validators {
  import opened Text

  datatype Check =
    | DataRequired
    | Optional
      /** `Length(min, max)`; `max == -1` means no upper bound. */
    | Length(min: int, max: int)
      /** `Regexp('^[a-zA-Z0-9]*$')` evaluated with Python's `re.match`: `$`
          also matches just before a final newline. */
    | AlnumRegexp
      /** The same pattern matched against the whole string (`re.fullmatch`). */
    | AlnumFullMatch
      /** `EqualTo(other)`, carrying the other field's data. */
    | EqualTo(other: string)
      /** `Email()`, carrying the outcome of the e-mail syntax check. */
    | Email(wellFormed: bool)
      /** A `validate_<field>` method, carrying whether it raises `ValidationError`. */
    | Inline(passes: bool)

  /** WTForms checks "no data" with `not data.strip()`. */
  predicate Blank(data: string) {
    Strip(data) == []
  }

  predicate AsciiAlnum(c: char) {
    ('a' <= c <= 'z') || ('A' <= c <= 'Z') || ('0' <= c <= '9')
  }

  predicate AllAlnum(s: string) {
    forall i :: 0 <= i < |s| ==> AsciiAlnum(s[i])
  }

  /** `re.match('^[a-zA-Z0-9]*$', s)` succeeds. */
  predicate RegexpMatches(s: string) {
    AllAlnum(s) || (s != [] && s[|s| - 1] == '\n' && AllAlnum(s[..|s| - 1]))
  }

  /** Whether a validator that never stops the chain accepts `data`. */
  predicate Accepts(c: Check, data: string) {
    match c
    case DataRequired => !Blank(data)
    case Optional => true
    case Length(lo, hi) => lo <= |data| && (hi == -1 || |data| <= hi)
    case AlnumRegexp => RegexpMatches(data)
    case AlnumFullMatch => AllAlnum(data)
    case EqualTo(other) => data == other
    case Email(ok) => ok
    case Inline(ok) => ok
  }

  /** Runs `chain` on `data` with `errors` already collected; returns the
      errors the field ends with. */
  function Run(data: string, chain: seq<Check>, errors: seq<Check>): (r: seq<Check>)
    decreases |chain|
  {
    if chain == [] then errors
    else match chain[0]
      case DataRequired => if Blank(data) then [DataRequired] else Run(data, chain[1..], errors)
      case Optional => if Blank(data) then [] else Run(data, chain[1..], errors)
      case _ =>
        Run(data, chain[1..], if Accepts(chain[0], data) then errors else errors + [chain[0]])
  }

  predicate FieldValid(data: string, chain: seq<Check>) {
    Run(data, chain, []) == []
  }

  /** A validator that cannot stop the chain. */
  predicate Plain(c: Check) {
    !c.DataRequired? && !c.Optional?
  }

  predicate AllPlain(chain: seq<Check>) {
    forall k :: 0 <= k < |chain| ==> Plain(chain[k])
  }

  /** Every validator of `chain` accepts `data`. */
  predicate AllAccept(chain: seq<Check>, data: string) {
    chain == [] || (Accepts(chain[0], data) && AllAccept(chain[1..], data))
  }

  /** A chain of plain validators collects exactly the failing ones, so it
      leaves no error iff every validator accepts. */
  lemma {:induction false} RunPlain(data: string, chain: seq<Check>, errors: seq<Check>)
    requires AllPlain(chain)
    ensures Run(data, chain, errors) == [] <==> errors == [] && AllAccept(chain, data)
    decreases |chain|
  {
    if chain != [] {
      var next := if Accepts(chain[0], data) then errors else errors + [chain[0]];
      assert AllPlain(chain[1..]) by {
        forall k | 0 <= k < |chain| - 1 ensures Plain(chain[1..][k]) { assert chain[1..][k] == chain[k + 1]; }
      }
      RunPlain(data, chain[1..], next);
    }
  }

  /** `DataRequired` first: the field is valid iff the data is not blank and
      every later (plain) validator accepts it. */
  lemma RequiredChain(data: string, rest: seq<Check>)
    requires AllPlain(rest)
    ensures FieldValid(data, [DataRequired] + rest) <==> !Blank(data) && AllAccept(rest, data)
  {
    assert ([DataRequired] + rest)[1..] == rest;
    RunPlain(data, rest, []);
  }

  /** `Optional` first: blank data is valid whatever follows; otherwise every
      later (plain) validator must accept it. */
  lemma OptionalChain(data: string, rest: seq<Check>)
    requires AllPlain(rest)
    ensures FieldValid(data, [Optional] + rest) <==> Blank(data) || AllAccept(rest, data)
  {
    assert ([Optional] + rest)[1..] == rest;
    RunPlain(data, rest, []);
  }

  /** `[DataRequired, a]`, `[DataRequired, a, b]`, `[DataRequired, a, b, c]`
      and `[Optional, a]`, the shapes the forms declare. */
  lemma Required1(data: string, a: Check)
    requires Plain(a)
    ensures FieldValid(data, [DataRequired, a]) <==> !Blank(data) && Accepts(a, data)
  {
    assert [DataRequired, a] == [DataRequired] + [a];
    assert [a][1..] == [];
    RequiredChain(data, [a]);
  }

  lemma Required2(data: string, a: Check, b: Check)
    requires Plain(a) && Plain(b)
    ensures FieldValid(data, [DataRequired, a, b]) <==>
              !Blank(data) && Accepts(a, data) && Accepts(b, data)
  {
    assert [DataRequired, a, b] == [DataRequired] + [a, b];
    assert [a, b][1..] == [b];
    assert [b][1..] == [];
    assert AllAccept([a, b], data) == (Accepts(a, data) && AllAccept([b], data));
    assert AllAccept([b], data) == Accepts(b, data);
    RequiredChain(data, [a, b]);
  }

  lemma Required3(data: string, a: Check, b: Check, c: Check)
    requires Plain(a) && Plain(b) && Plain(c)
    ensures FieldValid(data, [DataRequired, a, b, c]) <==>
              !Blank(data) && Accepts(a, data) && Accepts(b, data) && Accepts(c, data)
  {
    assert [DataRequired, a, b, c] == [DataRequired] + [a, b, c];
    assert [a, b, c][1..] == [b, c];
    assert [b, c][1..] == [c];
    assert [c][1..] == [];
    assert AllAccept([a, b, c], data) == (Accepts(a, data) && AllAccept([b, c], data));
    assert AllAccept([b, c], data) == (Accepts(b, data) && AllAccept([c], data));
    assert AllAccept([c], data) == Accepts(c, data);
    RequiredChain(data, [a, b, c]);
  }

  lemma Optional1(data: string, a: Check)
    requires Plain(a)
    ensures FieldValid(data, [Optional, a]) <==> Blank(data) || Accepts(a, data)
  {
    assert [Optional, a] == [Optional] + [a];
    assert [a][1..] == [];
    OptionalChain(data, [a]);
  }
}
