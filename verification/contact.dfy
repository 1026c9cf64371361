/**
 * The contact page controller: four field validators, the per-field error display they drive,
 * the sticky blur/input re-validation rule, the submit gate with its simulated send, and the
 * character counter under the message field.
 */
module Contact {
  import opened Strings

  /** A validator's answer: pass, or fail with the message shown under the field. */
  datatype Verdict = Valid | Invalid(message: string)

  function ValidateName(v: string): (r: Verdict)
    ensures r.Valid? <==> |v| >= 2
    ensures v == "" ==> r == Invalid("Name is required")
    ensures |v| == 1 ==> r == Invalid("Name must be at least 2 characters")
  {
    if v == "" then Invalid("Name is required")
    else if |v| < 2 then Invalid("Name must be at least 2 characters")
    else Valid
  }

  /** A non-empty run of characters that are neither whitespace nor '@' (`[^\s@]+`). */
  ghost predicate PlainRun(t: string) {
    |t| > 0 && forall k :: 0 <= k < |t| ==> !IsSpace(t[k]) && t[k] != '@'
  }

  /** The language of the pattern `^[^\s@]+@[^\s@]+\.[^\s@]+$`, read off its structure. */
  ghost predicate MatchesEmailPattern(s: string) {
    exists local, host, tld ::
      PlainRun(local) && PlainRun(host) && PlainRun(tld) && s == local + "@" + host + "." + tld
  }

  /**
   * What the pattern test decides, by position: no whitespace, exactly one '@', not first,
   * and a '.' after it that is neither right after the '@' nor the last character.
   */
  predicate EmailShaped(s: string) {
    && (forall k | 0 <= k < |s| :: !IsSpace(s[k]))
    && exists at | 0 < at < |s| ::
      && s[at] == '@'
      && (forall k | 0 <= k < |s| && k != at :: s[k] != '@')
      && exists dot | at + 1 < dot < |s| - 1 :: s[dot] == '.'
  }

  /** Every string the positional test accepts splits as the pattern requires. */
  lemma EmailShapedMatches(s: string)
    requires EmailShaped(s)
    ensures MatchesEmailPattern(s)
  {
    var at :| 0 < at < |s| && s[at] == '@' && (forall k | 0 <= k < |s| && k != at :: s[k] != '@')
      && exists dot | at + 1 < dot < |s| - 1 :: s[dot] == '.';
    var dot :| at + 1 < dot < |s| - 1 && s[dot] == '.';
    var local, host, tld := s[..at], s[at + 1..dot], s[dot + 1..];
    assert s == local + "@" + host + "." + tld;
    assert PlainRun(local);
    assert PlainRun(host) by {
      forall k | 0 <= k < |host| ensures !IsSpace(host[k]) && host[k] != '@' {
        assert host[k] == s[at + 1 + k];
      }
    }
    assert PlainRun(tld) by {
      forall k | 0 <= k < |tld| ensures !IsSpace(tld[k]) && tld[k] != '@' {
        assert tld[k] == s[dot + 1 + k];
      }
    }
  }

  /** Every string the pattern matches passes the positional test. */
  lemma MatchesEmailShaped(s: string)
    requires MatchesEmailPattern(s)
    ensures EmailShaped(s)
  {
    var local, host, tld :| PlainRun(local) && PlainRun(host) && PlainRun(tld)
      && s == local + "@" + host + "." + tld;
    var at, dot := |local|, |local| + 1 + |host|;
    forall k | 0 <= k < |s| ensures !IsSpace(s[k]) && (k != at ==> s[k] != '@') {
      if k < at {
        assert s[k] == local[k];
      } else if at < k < dot {
        assert s[k] == host[k - at - 1];
      } else if dot < k {
        assert s[k] == tld[k - dot - 1];
      }
    }
    assert s[at] == '@' && s[dot] == '.';
  }

  /** The positional test accepts exactly the strings the pattern matches. */
  lemma EmailShapedIff(s: string)
    ensures EmailShaped(s) <==> MatchesEmailPattern(s)
  {
    if EmailShaped(s) {
      EmailShapedMatches(s);
    }
    if MatchesEmailPattern(s) {
      MatchesEmailShaped(s);
    }
  }

  function ValidateEmail(v: string): (r: Verdict)
    ensures v == "" ==> r == Invalid("Email is required")
    ensures v != "" ==> (r.Valid? <==> MatchesEmailPattern(v))
    ensures v != "" && r.Invalid? ==> r == Invalid("Please enter a valid email address")
  {
    EmailShapedIff(v);
    if v == "" then Invalid("Email is required")
    else if !EmailShaped(v) then Invalid("Please enter a valid email address")
    else Valid
  }

  function ValidateSubject(v: string): (r: Verdict)
    ensures r.Valid? <==> v != ""
    ensures v == "" ==> r == Invalid("Please select a subject")
  {
    if v == "" then Invalid("Please select a subject") else Valid
  }

  function ValidateMessage(v: string): (r: Verdict)
    ensures r.Valid? <==> 10 <= |v| <= 1000
    ensures v == "" ==> r == Invalid("Message is required")
    ensures 0 < |v| < 10 ==> r == Invalid("Message must be at least 10 characters")
    ensures |v| > 1000 ==> r == Invalid("Message must be less than 1000 characters")
  {
    if v == "" then Invalid("Message is required")
    else if |v| < 10 then Invalid("Message must be at least 10 characters")
    else if |v| > 1000 then Invalid("Message must be less than 1000 characters")
    else Valid
  }

  /**
   * The `fields` table: the validator of each field, in the order the page lists them and the
   * submit handler visits them (name, email, subject, message).
   */
  const Wiring: seq<string -> Verdict> := [ValidateName, ValidateEmail, ValidateSubject, ValidateMessage]

  /** The position of the message field in `Wiring`. */
  const MessageField := 3

  /** Every field is required, and every failure carries a message to show. */
  lemma EveryValidatorRequiresValue(k: nat, v: string)
    requires k < |Wiring|
    ensures Wiring[k](v).Valid? ==> v != ""
    ensures Wiring[k](v).Invalid? ==> Wiring[k](v).message != ""
  {
  }

  /** The boundary cases of the three length rules and of the email pattern. */
  lemma ValidatorBoundaries()
    ensures ValidateName("A").Invalid? && ValidateName("Al").Valid?
    ensures ValidateEmail("a@b") == Invalid("Please enter a valid email address")
    ensures ValidateEmail("a@b.com").Valid?
    ensures ValidateMessage("123456789").Invalid? && ValidateMessage("1234567890").Valid?
  {
    assert "a@b.com" == "a" + "@" + "b" + "." + "com";
    assert PlainRun("a") && PlainRun("b") && PlainRun("com");
    assert !EmailShaped("a@b");
    EmailShapedIff("a@b");
  }

  /** What the page shows of one field: its value, its `error` class, and its error element's text and `show` class. */
  datatype FieldView = FieldView(value: string, error: bool, errorText: string, errorShown: bool)

  const Blank := FieldView("", false, "", false)

  /** Whether a field's value passes its validator once trimmed. */
  predicate Passes(validate: string -> Verdict, value: string) {
    validate(Trim(value)).Valid?
  }

  /** The field as `validateField` leaves it. */
  function Judged(validate: string -> Verdict, f: FieldView): FieldView {
    var verdict := validate(Trim(f.value));
    if verdict.Valid? then f.(error := false, errorText := "", errorShown := false)
    else f.(error := true, errorText := verdict.message, errorShown := true)
  }

  /**
   * Validation keeps the value, raises the error flag and shows the validator's message exactly
   * when the trimmed value fails, and clears the text on success; judging again changes nothing.
   */
  lemma JudgedShowsVerdict(validate: string -> Verdict, f: FieldView)
    ensures Judged(validate, f).value == f.value
    ensures Judged(validate, f).error == Judged(validate, f).errorShown == !Passes(validate, f.value)
    ensures Passes(validate, f.value) ==> Judged(validate, f).errorText == ""
    ensures !Passes(validate, f.value) ==> Judged(validate, f).errorText == validate(Trim(f.value)).message
    ensures Judged(validate, Judged(validate, f)) == Judged(validate, f)
  {
  }

  /** A name made only of whitespace is reported as missing, not as too short. */
  lemma BlankNameIsRequired(f: FieldView)
    requires AllSpace(f.value)
    ensures Judged(ValidateName, f).error && Judged(ValidateName, f).errorText == "Name is required"
  {
  }

  /** Surrounding whitespace, however much and of whatever kind, does not count toward a field's verdict. */
  lemma PaddingDoesNotCount(validate: string -> Verdict, a: string, v: string, b: string)
    requires AllSpace(a) && AllSpace(b)
    ensures Passes(validate, a + v + b) == Passes(validate, v)
  {
    TrimPaddedAny(a, v, b);
  }

  /** The whole form as the submit handler leaves it: every field judged by its own validator, none skipped. */
  function JudgedAll(validators: seq<string -> Verdict>, fs: seq<FieldView>): (r: seq<FieldView>)
    requires |fs| == |validators|
    ensures |r| == |fs|
  {
    seq(|fs|, k requires 0 <= k < |fs| => Judged(validators[k], fs[k]))
  }

  predicate FormPasses(validators: seq<string -> Verdict>, fs: seq<FieldView>)
    requires |fs| == |validators|
  {
    forall k :: 0 <= k < |fs| ==> Passes(validators[k], fs[k].value)
  }

  /**
   * Submitting judges every field, with no short-circuit: values are kept, every failing field
   * shows its error, and the form passes exactly when no field is left flagged.
   */
  lemma JudgedAllFlagsEveryFailure(validators: seq<string -> Verdict>, fs: seq<FieldView>)
    requires |fs| == |validators|
    ensures forall k :: 0 <= k < |fs| ==> JudgedAll(validators, fs)[k].value == fs[k].value
    ensures forall k :: 0 <= k < |fs| ==>
      (JudgedAll(validators, fs)[k].errorShown <==> !Passes(validators[k], fs[k].value))
    ensures FormPasses(validators, fs) <==> forall k :: 0 <= k < |fs| ==> !JudgedAll(validators, fs)[k].error
  {
  }

  /** A field as the timed reset leaves it: value back to its default, classes removed, message text left in place. */
  function Cleared(f: FieldView): FieldView {
    FieldView("", false, f.errorText, false)
  }

  /** A form just reset cannot be submitted again without new input. */
  lemma ClearedFormFails(fs: seq<FieldView>)
    requires |fs| == |Wiring|
    ensures !FormPasses(Wiring, seq(|fs|, k requires 0 <= k < |fs| => Cleared(fs[k])))
  {
    var cleared := seq(|fs|, k requires 0 <= k < |fs| => Cleared(fs[k]));
    assert !Passes(Wiring[0], cleared[0].value);
  }

  /** The character counter's text: the count, then "/1000". */
  function CounterText(count: nat): (t: string)
    ensures |t| >= 6 && t[|t| - 5..] == "/1000"
    ensures IsDigits(t[..|t| - 5]) && DecimalValue(t[..|t| - 5]) == count
    ensures |t| > 6 ==> t[0] != '0'
  {
    var digits := NatText(count);
    assert (digits + "/1000")[..|digits|] == digits;
    digits + "/1000"
  }

  /** Where the submission is: editable, waiting out the simulated send, or showing the success panel. */
  datatype Phase = Idle | Sending | Sent

  class ContactForm {
    /** The validator of each field, as wired by the page. */
    const validators: seq<string -> Verdict>
    var fields: seq<FieldView>
    var loading: bool
    var disabled: bool
    var formShown: bool
    var successShown: bool
    var counterText: string
    var counterAccent: bool
    ghost var phase: Phase

    /** Four fields, and the button, form and success panel in the state their phase calls for. */
    ghost predicate Valid()
      reads this
    {
      && |validators| == 4 && |fields| == 4
      && loading == (phase != Idle) && disabled == (phase != Idle)
      && formShown == (phase != Sent)
      && successShown == (phase == Sent)
    }

    constructor ()
      ensures Valid() && phase == Idle
      ensures validators == Wiring
      ensures fields == [Blank, Blank, Blank, Blank]
      ensures counterText == "0/1000" && !counterAccent
    {
      validators := Wiring;
      fields := [Blank, Blank, Blank, Blank];
      loading, disabled := false, false;
      formShown, successShown := true, false;
      counterText, counterAccent := "0/1000", false;
      phase := Idle;
    }

    /** `validateField`: judge field `i` on its trimmed value and report whether it passed. */
    method ValidateField(i: nat) returns (ok: bool)
      requires i < |fields| == |validators|
      modifies this`fields
      ensures |fields| == |old(fields)|
      ensures fields == old(fields)[i := Judged(validators[i], old(fields)[i])]
      ensures ok == Passes(validators[i], old(fields)[i].value)
    {
      var verdict := validators[i](Trim(fields[i].value));
      if verdict.Invalid? {
        fields := fields[i := fields[i].(error := true, errorText := verdict.message, errorShown := true)];
        ok := false;
      } else {
        fields := fields[i := fields[i].(error := false, errorText := "", errorShown := false)];
        ok := true;
      }
    }

    /** Leaving a field always re-validates it. */
    method Blur(i: nat)
      requires Valid() && i < |fields|
      modifies this`fields
      ensures Valid()
      ensures fields == old(fields)[i := Judged(validators[i], old(fields)[i])]
    {
      var _ := ValidateField(i);
    }

    /**
     * Typing `value` into field `i`: the field is re-validated only if it already carries the
     * error flag, so a field without it just takes the new value.
     */
    method Input(i: nat, value: string)
      requires Valid() && i < |fields|
      modifies this`fields
      ensures Valid()
      ensures old(fields[i].error) ==> fields == old(fields)[i := Judged(validators[i], old(fields[i]).(value := value))]
      ensures !old(fields[i].error) ==> fields == old(fields)[i := old(fields[i]).(value := value)]
    {
      var typed := fields[i].(value := value);
      fields := fields[i := typed];
      if typed.error {
        var _ := ValidateField(i);
        assert fields == old(fields)[i := typed][i := Judged(validators[i], typed)];
        assert old(fields)[i := typed][i := Judged(validators[i], typed)] == old(fields)[i := Judged(validators[i], typed)];
      }
    }

    /**
     * The message field's second input listener: the counter shows the untrimmed length out of
     * 1000, in the accent colour once it passes 900.
     */
    method RefreshCounter()
      requires Valid()
      modifies this`counterText, this`counterAccent
      ensures Valid()
      ensures counterText == CounterText(|fields[MessageField].value|)
      ensures counterAccent <==> |fields[MessageField].value| > 900
    {
      var count := |fields[MessageField].value|;
      counterText := CounterText(count);
      counterAccent := count > 900;
    }

    /** Every field validated in turn, none skipped after a failure; reports whether all passed. */
    method ValidateAll() returns (ok: bool)
      requires |fields| == |validators|
      modifies this`fields
      ensures fields == JudgedAll(validators, old(fields))
      ensures ok == FormPasses(validators, old(fields))
    {
      ok := true;
      var i := 0;
      while i < |fields|
        invariant 0 <= i <= |fields| == |validators|
        invariant forall k :: 0 <= k < i ==> fields[k] == Judged(validators[k], old(fields[k]))
        invariant forall k :: i <= k < |fields| ==> fields[k] == old(fields[k])
        invariant ok == forall k :: 0 <= k < i ==> Passes(validators[k], old(fields[k]).value)
      {
        var passed := ValidateField(i);
        if !passed {
          ok := false;
        }
        i := i + 1;
      }
    }

    /**
     * One input event on the message field: it reaches both listeners, the sticky re-validation
     * first and the counter second.
     */
    method MessageInput(value: string)
      requires Valid()
      modifies this`fields, this`counterText, this`counterAccent
      ensures Valid()
      ensures old(fields[MessageField].error) ==>
        fields == old(fields)[MessageField := Judged(validators[MessageField], old(fields[MessageField]).(value := value))]
      ensures !old(fields[MessageField].error) ==>
        fields == old(fields)[MessageField := old(fields[MessageField]).(value := value)]
      ensures counterText == CounterText(|value|) && (counterAccent <==> |value| > 900)
    {
      Input(MessageField, value);
      RefreshCounter();
    }

    /**
     * The submit handler: validate every field, then enter the loading state only if all passed.
     * A disabled submit button lets no submit event through, so it is only ever called while idle.
     */
    method Submit() returns (sent: bool)
      requires Valid() && !disabled
      modifies this
      ensures Valid()
      ensures sent == FormPasses(validators, old(fields))
      ensures fields == JudgedAll(validators, old(fields))
      ensures phase == (if sent then Sending else Idle) && loading == sent && disabled == sent
      ensures formShown && !successShown
      ensures counterText == old(counterText) && counterAccent == old(counterAccent)
    {
      var formValid := ValidateAll();
      if !formValid {
        return false;
      }
      loading := true;
      disabled := true;
      phase := Sending;
      sent := true;
    }

    /** The simulated send has finished: hide the form and show the success panel. */
    method SendCompleted()
      requires Valid() && phase == Sending
      modifies this`formShown, this`successShown, this`phase
      ensures Valid() && phase == Sent
      ensures !formShown && successShown && loading && disabled
    {
      formShown := false;
      successShown := true;
      phase := Sent;
    }

    /**
     * The success panel's time is up: show the form again, reset it, hide the panel, re-enable
     * the button and clear every field's error classes.
     */
    method ResetElapsed()
      requires Valid() && phase == Sent
      modifies this
      ensures Valid() && phase == Idle
      ensures fields == seq(|old(fields)|, k requires 0 <= k < |old(fields)| => Cleared(old(fields)[k]))
      ensures formShown && !successShown && !loading && !disabled
      ensures counterText == old(counterText) && counterAccent == old(counterAccent)
    {
      formShown := true;
      var typed := fields;
      fields := seq(|typed|, k requires 0 <= k < |typed| => typed[k].(value := ""));
      successShown := false;
      loading := false;
      disabled := false;
      var i := 0;
      while i < |fields|
        modifies this`fields
        invariant 0 <= i <= |fields| == |validators|
        invariant forall k :: 0 <= k < i ==> fields[k] == Cleared(old(fields[k]))
        invariant forall k :: i <= k < |fields| ==> fields[k] == old(fields[k]).(value := "")
      {
        fields := fields[i := fields[i].(error := false, errorShown := false)];
        i := i + 1;
      }
      phase := Idle;
    }
  }
}
