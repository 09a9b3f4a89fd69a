/** Reading the selected choices out of a submitted exam form: the fields
    whose key starts with "choice" carry a choice id as a decimal literal. */
module Answers {
  import opened Records

  /** One submitted form field: its key and its (last) value. */
  type Field = (string, string)

  const ChoicePrefix: string := "choice"

  predicate StartsWith(s: string, prefix: string) {
    |prefix| <= |s| && s[..|prefix|] == prefix
  }

  predicate IsDigit(ch: char) {
    '0' <= ch <= '9'
  }

  predicate AllDigits(s: string) {
    forall i :: 0 <= i < |s| ==> IsDigit(s[i])
  }

  /** The value of a string of decimal digits, most significant first. */
  function DigitsValue(s: string): nat
    requires AllDigits(s)
  {
    if s == [] then 0
    else DigitsValue(s[..|s| - 1]) * 10 + (s[|s| - 1] as int - '0' as int)
  }

  /** The integer literals accepted: an optional sign and at least one digit. */
  predicate IsIntLiteral(s: string) {
    || (|s| > 0 && AllDigits(s))
    || (|s| > 1 && (s[0] == '+' || s[0] == '-') && AllDigits(s[1..]))
  }

  /** Converting a submitted value to an integer; None where the conversion
      raises an error. */
  function ParseInt(s: string): (r: Option<int>)
    ensures r.Some? <==> IsIntLiteral(s)
    ensures r.Some? && r.value < 0 ==> s[0] == '-'
  {
    if |s| > 1 && (s[0] == '+' || s[0] == '-') && AllDigits(s[1..]) then
      var n: int := DigitsValue(s[1..]);
      Some(if s[0] == '-' then -n else n)
    else if |s| > 0 && AllDigits(s) then
      Some(DigitsValue(s))
    else
      None
  }

  /** The decimal form of a natural number, as a page renders a choice id. */
  function ShowNat(n: nat): (r: string)
  {
    var d := ['0' + (n % 10) as char];
    if n < 10 then d else ShowNat(n / 10) + d
  }

  function ShowInt(n: int): string {
    if n < 0 then "-" + ShowNat(-n) else ShowNat(n)
  }

  lemma {:induction false} ShowNatDigits(n: nat)
    ensures |ShowNat(n)| > 0 && AllDigits(ShowNat(n))
    ensures DigitsValue(ShowNat(n)) == n
  {
    var s := ShowNat(n);
    if n >= 10 {
      ShowNatDigits(n / 10);
      assert s[..|s| - 1] == ShowNat(n / 10);
    }
  }

  /** Every id a page renders reads back as that id. */
  lemma ParseShowRoundTrip(n: int)
    ensures ParseInt(ShowInt(n)) == Some(n)
  {
    ShowNatDigits(if n < 0 then -n else n);
    if n < 0 {
      assert ShowInt(n)[1..] == ShowNat(-n);
    } else {
      assert ShowInt(n)[0] != '-' && ShowInt(n)[0] != '+';
    }
  }

  /** The fields named like "choice...", in form order. */
  function ChoiceFields(form: seq<Field>): (r: seq<Field>)
    ensures |r| <= |form|
    ensures forall f :: f in r <==> f in form && StartsWith(f.0, ChoicePrefix)
  {
    if form == [] then []
    else
      var init := ChoiceFields(form[..|form| - 1]);
      var f := form[|form| - 1];
      assert form == form[..|form| - 1] + [f];
      if StartsWith(f.0, ChoicePrefix) then init + [f] else init
  }

  /** Converts every value in order; the first value that is not an integer
      literal is the failure. */
  function ParseAll(fields: seq<Field>): (r: Result<seq<ChoiceId>>)
    ensures r.Ok? ==> |r.value| == |fields|
    ensures r.Err? ==> r.error.InvalidLiteral? && !IsIntLiteral(r.error.value)
  {
    if fields == [] then Ok([])
    else
      var f := fields[|fields| - 1];
      match ParseAll(fields[..|fields| - 1])
      case Err(e) => Err(e)
      case Ok(ids) =>
        match ParseInt(f.1)
        case None => Err(InvalidLiteral(f.1))
        case Some(id) => Ok(ids + [id])
  }

  /** What the submitted form yields: the integer value of each "choice"
      field, in form order. */
  function AnswersOf(form: seq<Field>): (r: Result<seq<ChoiceId>>)
    ensures r.Ok? ==> forall k :: 0 <= k < |r.value| ==>
      exists f :: f in form && StartsWith(f.0, ChoicePrefix) && ParseInt(f.1) == Some(r.value[k])
    ensures r.Err? ==> exists f :: f in form && StartsWith(f.0, ChoicePrefix) && r.error == InvalidLiteral(f.1)
  {
    var fields := ChoiceFields(form);
    assert ParseAll(fields).Ok? ==> forall k :: 0 <= k < |ParseAll(fields).value| ==>
      exists f :: f in form && StartsWith(f.0, ChoicePrefix) && ParseInt(f.1) == Some(ParseAll(fields).value[k])
    by {
      if ParseAll(fields).Ok? {
        ParseAllMeaning(fields);
        forall k | 0 <= k < |ParseAll(fields).value|
          ensures exists f :: f in form && StartsWith(f.0, ChoicePrefix) && ParseInt(f.1) == Some(ParseAll(fields).value[k])
        {
          assert fields[k] in fields;
        }
      }
    }
    assert ParseAll(fields).Err? ==> exists f :: f in form && StartsWith(f.0, ChoicePrefix) && ParseAll(fields).error == InvalidLiteral(f.1)
    by {
      if ParseAll(fields).Err? {
        ParseAllFailure(fields);
        var k :| 0 <= k < |fields| && ParseAll(fields).error == InvalidLiteral(fields[k].1);
        assert fields[k] in fields;
      }
    }
    ParseAll(fields)
  }

  /** Parsing succeeds exactly when every value is a literal, and then gives
      one id per field, each that field's value. */
  lemma {:induction false} ParseAllMeaning(fields: seq<Field>)
    ensures ParseAll(fields).Ok? <==> forall f :: f in fields ==> IsIntLiteral(f.1)
    ensures ParseAll(fields).Ok? ==>
      |ParseAll(fields).value| == |fields| &&
      forall k :: 0 <= k < |fields| ==> ParseInt(fields[k].1) == Some(ParseAll(fields).value[k])
  {
    if fields != [] {
      var init := fields[..|fields| - 1];
      ParseAllMeaning(init);
      assert fields == init + [fields[|fields| - 1]];
    }
  }

  /** A failure names the value of the first field that is not a literal. */
  lemma {:induction false} ParseAllFailure(fields: seq<Field>)
    requires ParseAll(fields).Err?
    ensures exists k ::
              && 0 <= k < |fields|
              && ParseAll(fields).error == InvalidLiteral(fields[k].1)
              && !IsIntLiteral(fields[k].1)
              && forall j :: 0 <= j < k ==> IsIntLiteral(fields[j].1)
  {
    var n := |fields| - 1;
    var init := fields[..n];
    if ParseAll(init).Err? {
      ParseAllFailure(init);
      var k :| && 0 <= k < |init|
               && ParseAll(init).error == InvalidLiteral(init[k].1)
               && !IsIntLiteral(init[k].1)
               && forall j :: 0 <= j < k ==> IsIntLiteral(init[j].1);
      assert fields[k] == init[k];
      forall j | 0 <= j < k ensures IsIntLiteral(fields[j].1) {
        assert fields[j] == init[j];
      }
    } else {
      ParseAllMeaning(init);
      forall j | 0 <= j < n ensures IsIntLiteral(fields[j].1) {
        assert fields[j] == init[j] && init[j] in init;
      }
      assert ParseAll(fields).error == InvalidLiteral(fields[n].1);
    }
  }

  /** Extraction succeeds exactly when every "choice" field holds an integer
      literal; other fields are never read. */
  lemma AnswersOkIff(form: seq<Field>)
    ensures AnswersOf(form).Ok? <==>
      forall f :: f in form && StartsWith(f.0, ChoicePrefix) ==> IsIntLiteral(f.1)
  {
    ParseAllMeaning(ChoiceFields(form));
  }

  /** The filter splits over a concatenation of forms. */
  lemma {:induction false} ChoiceFieldsAppend(a: seq<Field>, b: seq<Field>)
    ensures ChoiceFields(a + b) == ChoiceFields(a) + ChoiceFields(b)
  {
    if b != [] {
      var b' := b[..|b| - 1];
      ChoiceFieldsAppend(a, b');
      assert (a + b)[..|a + b| - 1] == a + b';
      assert b == b' + [b[|b| - 1]];
    } else {
      assert a + b == a;
    }
  }

  /** A field whose key does not start with "choice", wherever it stands in
      the form, does not change what is extracted. */
  lemma AnswersIgnoreOtherKeys(a: seq<Field>, b: seq<Field>, f: Field)
    requires !StartsWith(f.0, ChoicePrefix)
    ensures AnswersOf(a + [f] + b) == AnswersOf(a + b)
  {
    ChoiceFieldsAppend(a + [f], b);
    ChoiceFieldsAppend(a, [f]);
    ChoiceFieldsAppend(a, b);
    assert ChoiceFields([f]) == [];
  }

  /** Once a prefix of the form fails, the whole form fails the same way. */
  lemma {:induction false} FailureStays(form: seq<Field>, n: nat)
    requires n <= |form|
    requires AnswersOf(form[..n]).Err?
    ensures AnswersOf(form) == AnswersOf(form[..n])
  {
    if n < |form| {
      var init := form[..|form| - 1];
      assert init[..n] == form[..n];
      FailureStays(init, n);
    } else {
      assert form[..n] == form;
    }
  }

  /** The extract_answers loop: walks the form in order, converts the value
      of every "choice" field, and stops at the first value that is not an
      integer literal. */
  method ExtractAnswers(form: seq<Field>) returns (r: Result<seq<ChoiceId>>)
    ensures r == AnswersOf(form)
  {
    var submitted: seq<ChoiceId> := [];
    for i := 0 to |form|
      invariant AnswersOf(form[..i]) == Ok(submitted)
    {
      var (key, value) := form[i];
      assert form[..i + 1][..i] == form[..i];
      if StartsWith(key, ChoicePrefix) {
        var choiceId := ParseInt(value);
        if choiceId.None? {
          FailureStays(form, i + 1);
          return Err(InvalidLiteral(value));
        }
        submitted := submitted + [choiceId.value];
      }
    }
    assert form[..|form|] == form;
    r := Ok(submitted);
  }
}
