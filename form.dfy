/**
 * The contact form's client-side validation: `isValidEmail`, `validateField`
 * and `validateForm` in js/main.js. A form field is reduced to what the
 * validation reads of it: its value, its `required` attribute and its `type`.
 */
module Form {
  import opened Text

  /** A character the email pattern's class `[^\s@]` admits. */
  predicate Plain(c: char)
  {
    !IsWhitespace(c) && c != '@'
  }

  predicate AllPlain(s: string)
  {
    forall k :: 0 <= k < |s| ==> Plain(s[k])
  }

  /** The position of the first `@` in `s`, or `|s|` when there is none. */
  function FindAt(s: string): (i: nat)
    ensures i <= |s|
    ensures forall k :: 0 <= k < i ==> s[k] != '@'
    ensures i < |s| ==> s[i] == '@'
  {
    if |s| == 0 || s[0] == '@' then 0 else 1 + FindAt(s[1..])
  }

  /**
   * `isValidEmail`: a non-empty run of plain characters, an `@`, and a domain of
   * plain characters with a `.` somewhere strictly inside it.
   */
  predicate IsValidEmail(s: string)
  {
    var i := FindAt(s);
    0 < i < |s| && AllPlain(s[..i]) &&
    var domain := s[i + 1..];
    AllPlain(domain) && |domain| >= 3 && '.' in domain[1..|domain| - 1]
  }

  /**
   * What the regular expression `^[^\s@]+@[^\s@]+\.[^\s@]+$` accepts: `s` splits
   * into three non-empty runs of plain characters joined by an `@` and a `.`.
   */
  ghost predicate MatchesEmailPattern(s: string)
  {
    exists i, j ::
      (0 < i && i + 1 < j && j + 1 < |s| && s[i] == '@' && s[j] == '.' &&
       AllPlain(s[..i]) && AllPlain(s[i + 1..j]) && AllPlain(s[j + 1..]))
  }

  lemma ValidEmailMatches(s: string)
    requires IsValidEmail(s)
    ensures MatchesEmailPattern(s)
  {
    var i := FindAt(s);
    var domain := s[i + 1..];
    var inner := domain[1..|domain| - 1];
    var k :| 0 <= k < |inner| && inner[k] == '.';
    var j := i + 2 + k;
    assert s[j] == '.';
    assert s[i + 1..j] == domain[..k + 1];
    assert s[j + 1..] == domain[k + 2..];
  }

  lemma MatchIsValidEmail(s: string, i: int, j: int)
    requires 0 < i && i + 1 < j && j + 1 < |s| && s[i] == '@' && s[j] == '.'
    requires AllPlain(s[..i]) && AllPlain(s[i + 1..j]) && AllPlain(s[j + 1..])
    ensures IsValidEmail(s)
  {
    assert FindAt(s) == i;
    var domain := s[i + 1..];
    forall k | 0 <= k < |domain|
      ensures Plain(domain[k])
    {
      if i + 1 + k < j {
        assert domain[k] == s[i + 1..j][k];
      } else if i + 1 + k > j {
        assert domain[k] == s[j + 1..][k - (j - i)];
      }
    }
    assert domain[1..|domain| - 1][j - i - 2] == '.';
  }

  /** `isValidEmail` accepts exactly what its regular expression matches. */
  lemma IsValidEmailMatchesPattern(s: string)
    ensures IsValidEmail(s) <==> MatchesEmailPattern(s)
  {
    if IsValidEmail(s) {
      ValidEmailMatches(s);
    }
    if MatchesEmailPattern(s) {
      var i, j :|
        0 < i && i + 1 < j && j + 1 < |s| && s[i] == '@' && s[j] == '.' &&
        AllPlain(s[..i]) && AllPlain(s[i + 1..j]) && AllPlain(s[j + 1..]);
      MatchIsValidEmail(s, i, j);
    }
  }

  /** No `@` among plain characters. */
  lemma {:induction false} NoAtInPlain(x: string)
    requires AllPlain(x)
    ensures multiset(x)['@'] == 0
  {
    if |x| > 0 {
      assert x == [x[0]] + x[1..];
      NoAtInPlain(x[1..]);
    }
  }

  /** Splitting `s` at its first `@` counts that `@` once. */
  lemma AtCount(s: string)
    requires FindAt(s) < |s|
    ensures multiset(s)['@'] == 1 + multiset(s[FindAt(s) + 1..])['@']
  {
    var i := FindAt(s);
    assert s == s[..i] + [s[i]] + s[i + 1..];
    assert forall m :: 0 <= m < i ==> s[..i][m] != '@';
    assert '@' !in multiset(s[..i]);
  }

  /**
   * The same acceptance in plain words: no whitespace, exactly one `@`, something
   * before it, and after it a `.` that is neither the first nor the last character.
   */
  predicate EmailShape(s: string)
  {
    (forall k :: 0 <= k < |s| ==> !IsWhitespace(s[k])) &&
    multiset(s)['@'] == 1 &&
    var i := FindAt(s);
    0 < i < |s| &&
    exists k :: i + 1 < k < |s| - 1 && s[k] == '.'
  }

  lemma ValidEmailHasShape(s: string)
    requires IsValidEmail(s)
    ensures EmailShape(s)
  {
    var i := FindAt(s);
    var domain := s[i + 1..];
    AtCount(s);
    NoAtInPlain(domain);
    forall k | 0 <= k < |s|
      ensures !IsWhitespace(s[k])
    {
      if k < i {
        assert s[k] == s[..i][k];
      } else if k > i {
        assert s[k] == domain[k - i - 1];
      }
    }
    var inner := domain[1..|domain| - 1];
    var m :| 0 <= m < |inner| && inner[m] == '.';
    assert s[i + 2 + m] == '.';
  }

  lemma ShapeIsValidEmail(s: string)
    requires EmailShape(s)
    ensures IsValidEmail(s)
  {
    var i := FindAt(s);
    var domain := s[i + 1..];
    var k :| i + 1 < k < |s| - 1 && s[k] == '.';
    AtCount(s);
    forall m | 0 <= m < |domain|
      ensures Plain(domain[m])
    {
      assert domain[m] == s[i + 1 + m];
      assert domain[m] in multiset(domain);
    }
    forall m | 0 <= m < i
      ensures Plain(s[..i][m])
    {
      assert s[..i][m] == s[m];
    }
    assert domain[1..|domain| - 1][k - i - 2] == '.';
  }

  lemma IsValidEmailShape(s: string)
    ensures IsValidEmail(s) <==> EmailShape(s)
  {
    if IsValidEmail(s) {
      ValidEmailHasShape(s);
    }
    if EmailShape(s) {
      ShapeIsValidEmail(s);
    }
  }

  /** What `validateField` reads of a form control. */
  datatype Field = Field(value: string, required: bool, kind: string)

  /** `validateField`'s `isValid` flag and the message it displays beside the field. */
  datatype Verdict = Verdict(isValid: bool, message: string)

  const RequiredMessage := "This field is required."
  const EmailMessage := "Please enter a valid email address."

  /** The decision of `validateField`, on the trimmed value. */
  function ValidateField(f: Field): Verdict
  {
    var value := Trim(f.value);
    if f.required && value == [] then Verdict(false, RequiredMessage)
    else if f.kind == "email" && value != [] && !IsValidEmail(value) then Verdict(false, EmailMessage)
    else Verdict(true, "")
  }

  /**
   * The outcomes of `validateField`: a required field left blank (whitespace
   * counts as blank) fails with the required message, whatever its type; a
   * non-blank email field that is not a valid address fails with the email
   * message; everything else passes with no message, an optional email field
   * left blank included.
   */
  lemma ValidateFieldOutcomes(f: Field)
    ensures var v := ValidateField(f);
      (v == Verdict(false, RequiredMessage) <==>
         f.required && forall k :: 0 <= k < |f.value| ==> IsWhitespace(f.value[k])) &&
      (v == Verdict(false, EmailMessage) <==>
         Trim(f.value) != [] && f.kind == "email" && !IsValidEmail(Trim(f.value))) &&
      (v.isValid <==> v == Verdict(true, "")) &&
      (v.isValid <==> !(f.required && Trim(f.value) == []) &&
                      !(f.kind == "email" && Trim(f.value) != [] && !IsValidEmail(Trim(f.value))))
  {
    TrimSpec(f.value);
  }

  /**
   * `validateForm`: validates every field, in order, without stopping at the
   * first failure, and reports whether all of them passed. The verdicts stand
   * for what each field displays afterwards.
   */
  method ValidateForm(fields: seq<Field>) returns (isValid: bool, verdicts: seq<Verdict>)
    ensures |verdicts| == |fields|
    ensures forall k :: 0 <= k < |fields| ==> verdicts[k] == ValidateField(fields[k])
    ensures isValid <==> forall k :: 0 <= k < |fields| ==> ValidateField(fields[k]).isValid
  {
    isValid := true;
    verdicts := [];
    var i := 0;
    while i < |fields|
      invariant 0 <= i <= |fields|
      invariant |verdicts| == i
      invariant forall k :: 0 <= k < i ==> verdicts[k] == ValidateField(fields[k])
      invariant isValid <==> forall k :: 0 <= k < i ==> ValidateField(fields[k]).isValid
    {
      var v := ValidateField(fields[i]);
      verdicts := verdicts + [v];
      if !v.isValid {
        isValid := false;
      }
      i := i + 1;
    }
  }
}
