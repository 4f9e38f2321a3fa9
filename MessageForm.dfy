/** The contact form (src/MessageForm/MessageForm.jsx): three fields, one
    error per field, a validator run on submit, and the submission of the
    trimmed fields.

    The request is not modelled; its outcome is an input. The `onSuccess`
    and `onError` callbacks are not modelled either; what the form would
    pass to them is returned as a notice. */
module MessageForm {
  import opened Common
  import opened Strings

  datatype Field = Name | Email | Message

  const NameRequired: string := "Name is required"
  const EmailRequired: string := "Email is required"
  const EmailInvalid: string := "Please enter a valid email"
  const MessageRequired: string := "Message is required"
  const MessageTooShort: string := "Message must be at least 10 characters"
  const ConfigurationError: string := "Configuration error"
  const SendFailed: string := "Failed to send message"
  const MinMessageLength: nat := 10

  /** A character that `[^\s@]` admits. */
  predicate IsAddressChar(c: char)
  {
    !IsSpace(c) && c != '@'
  }

  /** A possibly empty run of `[^\s@]`. */
  predicate AddressChars(s: string)
  {
    forall i :: 0 <= i < |s| ==> IsAddressChar(s[i])
  }

  /** `/^[^\s@]+@[^\s@]+\.[^\s@]+$/.test(email)`, read as a match: the '@'
      at `i` and the literal '.' at `j` split the address into three
      non-empty runs of `[^\s@]`. */
  ghost predicate EmailPatternAt(email: string, i: int, j: int)
  {
    && 0 < i && i + 1 < j && j + 1 < |email|
    && email[i] == '@' && email[j] == '.'
    && AddressChars(email[..i]) && AddressChars(email[i + 1..j]) && AddressChars(email[j + 1..])
  }

  ghost predicate EmailPattern(email: string)
  {
    exists i, j :: EmailPatternAt(email, i, j)
  }

  /** The email check as it is computed: a non-empty local part before the
      first '@', and after it a domain of `[^\s@]` with a '.' that is neither
      its first nor its last character. */
  predicate EmailValid(email: string)
  {
    var at := FirstIndexOf(email, '@');
    && 0 < at < |email|
    && AddressChars(email[..at])
    && var domain := email[at + 1..];
       && AddressChars(domain)
       && |domain| >= 3
       && '.' in domain[1..|domain| - 1]
  }

  /** The computed check accepts exactly the addresses the pattern matches. */
  lemma EmailValidIff(email: string)
    ensures EmailValid(email) <==> EmailPattern(email)
  {
    if EmailValid(email) {
      ValidMatches(email);
    }
    if EmailPattern(email) {
      var i, j :| EmailPatternAt(email, i, j);
      MatchIsValid(email, i, j);
    }
  }

  /** An address the computed check accepts has a match: the first '@' and
      a '.' inside the domain. */
  lemma ValidMatches(email: string)
    requires EmailValid(email)
    ensures EmailPattern(email)
  {
    var at := FirstIndexOf(email, '@');
    var domain := email[at + 1..];
    var inner := domain[1..|domain| - 1];
    var k :| 0 <= k < |inner| && inner[k] == '.';
    var j := at + 2 + k;
    assert email[j] == '.';
    assert email[at + 1..j] == domain[..k + 1];
    assert email[j + 1..] == domain[k + 2..];
    assert EmailPatternAt(email, at, j);
  }

  /** A match puts its '@' at the first '@' of the address, and the domain
      after it passes the computed check. */
  lemma MatchIsValid(email: string, i: int, j: int)
    requires EmailPatternAt(email, i, j)
    ensures EmailValid(email)
  {
    forall m | 0 <= m < i ensures email[m] != '@' {
      assert email[m] == email[..i][m];
    }
    FirstIndexOfIs(email, '@', i);
    var domain := email[i + 1..];
    assert domain[1..|domain| - 1][j - i - 2] == '.';
    forall m | 0 <= m < |domain| ensures IsAddressChar(domain[m]) {
      if i + 1 + m < j {
        assert domain[m] == email[i + 1..j][m];
      } else if i + 1 + m > j {
        assert domain[m] == email[j + 1..][i + m - j];
      } else {
        assert domain[m] == '.';
      }
    }
  }

  lemma {:induction false} FirstIndexOfIs(s: string, c: char, k: nat)
    requires k < |s| && s[k] == c
    requires forall m :: 0 <= m < k ==> s[m] != c
    ensures FirstIndexOf(s, c) == k
  {
    if k > 0 {
      FirstIndexOfIs(s[1..], c, k - 1);
    }
  }

  /** The error of each field, or `None`; each check is the trimmed-empty
      test first, so "required" takes precedence over the other error. */
  function NameError(name: string): Option<string>
  {
    if Trim(name) == [] then Some(NameRequired) else None
  }

  function EmailError(email: string): Option<string>
  {
    if Trim(email) == [] then Some(EmailRequired)
    else if !EmailValid(email) then Some(EmailInvalid)
    else None
  }

  function MessageError(message: string): Option<string>
  {
    if Trim(message) == [] then Some(MessageRequired)
    else if |Trim(message)| < MinMessageLength then Some(MessageTooShort)
    else None
  }

  /** The three fields of the form. */
  datatype FormData = FormData(name: string, email: string, message: string)
  {
    function Get(f: Field): string
    {
      match f
      case Name => name
      case Email => email
      case Message => message
    }

    function With(f: Field, value: string): (d: FormData)
      ensures d.Get(f) == value
      ensures forall g :: g != f ==> d.Get(g) == Get(g)
    {
      match f
      case Name => this.(name := value)
      case Email => this.(email := value)
      case Message => this.(message := value)
    }
  }

  function ErrorOf(data: FormData, f: Field): Option<string>
  {
    match f
    case Name => NameError(data.name)
    case Email => EmailError(data.email)
    case Message => MessageError(data.message)
  }

  /** The `newErrors` object `validateForm` builds: the name, the email and
      the message are checked in turn, and each failing field is given its
      message. */
  function CollectErrors(data: FormData): map<Field, string>
  {
    Collect(NameError(data.name), EmailError(data.email), MessageError(data.message))
  }

  /** The object built from the three checks' results, in field order. */
  function Collect(name: Option<string>, email: Option<string>, message: Option<string>): map<Field, string>
  {
    var e0: map<Field, string> := map[];
    var e1 := if name.Some? then e0[Name := name.value] else e0;
    var e2 := if email.Some? then e1[Email := email.value] else e1;
    if message.Some? then e2[Message := message.value] else e2
  }

  /** A field is in the built object exactly when its check failed, with
      that check's message. */
  lemma CollectMeaning(name: Option<string>, email: Option<string>, message: Option<string>)
    ensures var errs := Collect(name, email, message);
            && (Name in errs <==> name.Some?) && (name.Some? ==> errs[Name] == name.value)
            && (Email in errs <==> email.Some?) && (email.Some? ==> errs[Email] == email.value)
            && (Message in errs <==> message.Some?) && (message.Some? ==> errs[Message] == message.value)
  {
  }

  /** The collected errors are exactly those of the failing fields, each with
      its own message. */
  lemma CollectErrorsMeaning(data: FormData)
    ensures forall f :: f in CollectErrors(data) <==> ErrorOf(data, f).Some?
    ensures forall f :: f in CollectErrors(data) ==> CollectErrors(data)[f] == ErrorOf(data, f).value
  {
    var n, e, m := NameError(data.name), EmailError(data.email), MessageError(data.message);
    CollectMeaning(n, e, m);
    var errs := CollectErrors(data);
    assert errs == Collect(n, e, m);
    forall f
      ensures f in errs <==> ErrorOf(data, f).Some?
      ensures f in errs ==> errs[f] == ErrorOf(data, f).value
    {
      match f
      case Name => assert ErrorOf(data, f) == n;
      case Email => assert ErrorOf(data, f) == e;
      case Message => assert ErrorOf(data, f) == m;
    }
  }

  /** What the form expects of its fields: a name that is not blank, an email
      the pattern matches, and a message of at least ten characters once
      trimmed. */
  ghost predicate Acceptable(data: FormData)
  {
    && Trim(data.name) != []
    && EmailPattern(data.email)
    && |Trim(data.message)| >= MinMessageLength
  }

  /** No field has an error exactly when the form is acceptable. */
  lemma NoErrorIff(data: FormData)
    ensures (forall f :: ErrorOf(data, f).None?) <==> Acceptable(data)
  {
    NameErrorIff(data.name);
    EmailErrorIff(data.email);
    MessageErrorIff(data.message);
    EveryField(data);
  }

  /** The name field has no error exactly when it is not blank, that is,
      not all white space; its only error is "Name is required". */
  lemma NameErrorIff(name: string)
    ensures NameError(name).None? <==> Trim(name) != []
    ensures NameError(name).None? <==> !AllSpace(name)
    ensures NameError(name).Some? ==> NameError(name).value == NameRequired
  {
    TrimMeaning(name);
  }

  /** The message field has no error exactly when it has at least ten
      characters once trimmed; a blank message is reported as required and
      any other short one as too short. */
  lemma MessageErrorIff(message: string)
    ensures MessageError(message).None? <==> |Trim(message)| >= MinMessageLength
    ensures MessageError(message).Some? ==>
      MessageError(message).value == if AllSpace(message) then MessageRequired else MessageTooShort
  {
    TrimMeaning(message);
  }

  /** "No field has an error" spells out as the three fields. */
  lemma EveryField(data: FormData)
    ensures (forall f :: ErrorOf(data, f).None?) <==>
      ErrorOf(data, Name).None? && ErrorOf(data, Email).None? && ErrorOf(data, Message).None?
  {
    if ErrorOf(data, Name).None? && ErrorOf(data, Email).None? && ErrorOf(data, Message).None? {
      forall f ensures ErrorOf(data, f).None? {
        match f
        case Name =>
        case Email =>
        case Message =>
      }
    }
  }

  /** An error map that holds exactly the fields with an error is empty
      exactly when the form is acceptable. */
  lemma ErrorsEmptyIff(data: FormData, errs: map<Field, string>)
    requires forall f :: f in errs <==> ErrorOf(data, f).Some?
    ensures errs == map[] <==> Acceptable(data)
  {
    NoErrorIff(data);
    if errs != map[] {
      var f :| f in errs;
    }
  }

  /** The email field has no error exactly when the pattern matches it. */
  lemma EmailErrorIff(email: string)
    ensures EmailError(email).None? <==> EmailPattern(email)
  {
    EmailValidIff(email);
    if EmailPattern(email) {
      PatternIsTrimmed(email);
    }
  }

  /** An address with white space at either end is rejected as invalid, or as
      required when it is all white space. */
  lemma SurroundingSpaceRejected(email: string)
    requires email != [] && (IsSpace(email[0]) || IsSpace(email[|email| - 1]))
    ensures !EmailPattern(email)
    ensures EmailError(email) == (if Trim(email) == [] then Some(EmailRequired) else Some(EmailInvalid))
  {
    PatternEnds(email);
    EmailValidIff(email);
  }

  /** An address the pattern matches starts and ends with a character of
      `[^\s@]`. */
  lemma PatternEnds(email: string)
    ensures EmailPattern(email) ==> email != [] && IsAddressChar(email[0]) && IsAddressChar(email[|email| - 1])
  {
    if EmailPattern(email) {
      var i, j :| EmailPatternAt(email, i, j);
      assert email[0] == email[..i][0];
      assert email[|email| - 1] == email[j + 1..][|email| - j - 2];
    }
  }

  /** An address the pattern matches has no white space at its ends, so
      trimming leaves it as it is. */
  lemma PatternIsTrimmed(email: string)
    requires EmailPattern(email)
    ensures email != [] && Trim(email) == email
  {
    PatternEnds(email);
    TrimNoSpaceEnds(email);
  }

  /** A field of nothing but white space, however long, is reported as
      missing, never as invalid or too short. */
  lemma BlankIsRequired(s: string)
    requires AllSpace(s)
    ensures NameError(s) == Some(NameRequired)
    ensures EmailError(s) == Some(EmailRequired)
    ensures MessageError(s) == Some(MessageRequired)
  {
    TrimMeaning(s);
  }

  /** The body the form posts: the three fields, trimmed. */
  datatype Payload = Payload(senderEmail: string, name: string, message: string)

  /** `{ senderEmail: email.trim(), name: name.trim(), message: message.trim() }`. */
  function PayloadOf(data: FormData): Payload
  {
    Payload(Trim(data.email), Trim(data.name), Trim(data.message))
  }

  /** What an acceptable form posts: the address exactly as typed, since it
      has no white space to trim, a name that is not empty, and a message of
      at least ten characters. */
  lemma AcceptedPayload(data: FormData)
    requires Acceptable(data)
    ensures PayloadOf(data).senderEmail == data.email
    ensures EmailPattern(PayloadOf(data).senderEmail)
    ensures PayloadOf(data).name != []
    ensures |PayloadOf(data).message| >= MinMessageLength
  {
    PatternIsTrimmed(data.email);
  }

  /** What the form reports to its callbacks. */
  datatype Notice = Quiet | Succeeded | Failed(message: string)

  /** The outcome of the post: delivered, answered with a status that is not
      ok, or thrown with the error's message. */
  datatype SendOutcome = Delivered | HttpStatus(status: nat) | Threw(errorMessage: string)

  /** `error.message || "Failed to send message"`. */
  function FailureMessage(outcome: SendOutcome): (m: string)
    requires !outcome.Delivered?
    ensures m != []
  {
    match outcome
    case HttpStatus(status) => "HTTP error! status: " + NatToString(status)
    case Threw(message) => if message == "" then SendFailed else message
  }

  const EmptyForm: FormData := FormData("", "", "")

  class ContactForm {
    var data: FormData
    var errors: map<Field, string>
    var loading: bool

    constructor ()
      ensures data == EmptyForm && errors == map[] && !loading
    {
      data := EmptyForm;
      errors := map[];
      loading := false;
    }

    /** The message shown under a field: a present, non-empty error. */
    function ShownError(f: Field): (e: Option<string>)
      reads this
      ensures e.Some? <==> f in errors && errors[f] != ""
      ensures e.Some? ==> e.value == errors[f]
    {
      if f in errors && errors[f] != "" then Some(errors[f]) else None
    }

    /** `validateForm`: the errors become exactly those of the fields that
        fail their check, and the form is valid when there are none, which is
        when it is acceptable. */
    method ValidateForm() returns (valid: bool)
      modifies this
      ensures forall f :: (f in errors <==> ErrorOf(data, f).Some?)
      ensures forall f :: f in errors ==> errors[f] == ErrorOf(data, f).value
      ensures valid <==> errors == map[]
      ensures valid <==> Acceptable(data)
      ensures data == old(data) && loading == old(loading)
    {
      var newErrors := CollectErrors(data);
      CollectErrorsMeaning(data);
      ErrorsEmptyIff(data, newErrors);
      errors := newErrors;
      valid := |newErrors| == 0;
      if !valid {
        assert Name in newErrors || Email in newErrors || Message in newErrors;
      }
    }

    /** `handleInputChange`: only the named field takes the new value; that
        field's error, if one is shown, is blanked, and every other error
        stays. */
    method HandleInputChange(f: Field, value: string)
      modifies this
      ensures data == old(data).With(f, value)
      ensures data.Get(f) == value && forall g :: g != f ==> data.Get(g) == old(data).Get(g)
      ensures errors == if old(ShownError(f)).Some? then old(errors)[f := ""] else old(errors)
      ensures ShownError(f) == None
      ensures forall g :: g != f ==> ShownError(g) == old(ShownError(g))
      ensures loading == old(loading)
    {
      data := data.With(f, value);
      if f in errors && errors[f] != "" {
        errors := errors[f := ""];
      }
    }

    /** The synchronous start of `handleSubmit`: an invalid form sends
        nothing; a valid one without an API key sends nothing and reports the
        configuration error; otherwise loading starts and the trimmed fields
        are posted. A posted address is the one typed, which has no white
        space to trim, and the posted message is at least ten characters. */
    method BeginSubmit(apiKeyPresent: bool) returns (payload: Option<Payload>, notice: Notice)
      modifies this
      ensures payload.Some? <==> Acceptable(old(data)) && apiKeyPresent
      ensures notice == if Acceptable(old(data)) && !apiKeyPresent then Failed(ConfigurationError) else Quiet
      ensures payload.Some? ==> payload.value == PayloadOf(data)
      ensures loading == (old(loading) || payload.Some?)
      ensures data == old(data)
      ensures forall f :: (f in errors <==> ErrorOf(data, f).Some?)
      ensures forall f :: f in errors ==> errors[f] == ErrorOf(data, f).value
    {
      var valid := ValidateForm();
      if !valid {
        return None, Quiet;
      }
      if !apiKeyPresent {
        return None, Failed(ConfigurationError);
      }
      loading := true;
      payload := Some(PayloadOf(data));
      notice := Quiet;
    }

    /** The rest of `handleSubmit`, once the post has an outcome: a delivered
        message resets every field and clears the errors; a failure keeps the
        form and reports the error's message, or "Failed to send message"
        when it has none. Loading is over in both cases. */
    method FinishSubmit(outcome: SendOutcome) returns (notice: Notice)
      modifies this
      ensures !loading
      ensures outcome.Delivered? ==> data == EmptyForm && errors == map[] && notice == Succeeded
      ensures !outcome.Delivered? ==>
        data == old(data) && errors == old(errors) && notice == Failed(FailureMessage(outcome))
    {
      if outcome.Delivered? {
        data := EmptyForm;
        errors := map[];
        notice := Succeeded;
      } else {
        notice := Failed(FailureMessage(outcome));
      }
      loading := false;
    }

    /** `handleSubmit` from start to finish: the outcome is consulted only when
        something is posted. */
    method HandleSubmit(apiKeyPresent: bool, outcome: SendOutcome) returns (payload: Option<Payload>, notice: Notice)
      modifies this
      ensures payload.Some? <==> Acceptable(old(data)) && apiKeyPresent
      ensures payload.None? ==> data == old(data) && loading == old(loading)
      ensures payload.None? ==>
        notice == if Acceptable(old(data)) then Failed(ConfigurationError) else Quiet
      ensures payload.Some? ==> !loading
      ensures payload.Some? && outcome.Delivered? ==>
        data == EmptyForm && errors == map[] && notice == Succeeded
      ensures payload.Some? && !outcome.Delivered? ==>
        data == old(data) && notice == Failed(FailureMessage(outcome))
      ensures !(payload.Some? && outcome.Delivered?) ==>
        forall f :: (f in errors <==> ErrorOf(old(data), f).Some?)
      ensures !(payload.Some? && outcome.Delivered?) ==>
        forall f :: f in errors ==> errors[f] == ErrorOf(old(data), f).value
    {
      payload, notice := BeginSubmit(apiKeyPresent);
      if payload.Some? {
        notice := FinishSubmit(outcome);
      }
    }
  }
}
