// The booking form's data record, its error map and the per-step
// validation rules (validateStep), shared by both booking components.

module Validation {

  /** The keys of the form data record, which are also the keys of the error map. */
  datatype Field = Date | Time | FirstName | LastName | PhoneNumber | Email | GuestCount | Address | FoodAllergies

  /** The fields that hold text; guestCount holds a number. */
  type TextField = f: Field | f != GuestCount witness Date

  datatype FormData = FormData(
    date: string,
    time: string,
    firstName: string,
    lastName: string,
    phoneNumber: string,
    email: string,
    guestCount: int,
    address: string,
    foodAllergies: string)

  /** The record both components start from and return to on reset. */
  const DefaultFormData: FormData := FormData("", "", "", "", "", "", 1, "", "")

  function Text(d: FormData, f: TextField): string {
    match f
    case Date => d.date
    case Time => d.time
    case FirstName => d.firstName
    case LastName => d.lastName
    case PhoneNumber => d.phoneNumber
    case Email => d.email
    case Address => d.address
    case FoodAllergies => d.foodAllergies
  }

  /** The default record: every text field is empty and one guest is expected. */
  lemma DefaultFormDataIsBlank()
    ensures forall f: TextField :: Text(DefaultFormData, f) == ""
    ensures DefaultFormData.guestCount == 1
  {
    forall f: TextField ensures Text(DefaultFormData, f) == "" {
      match f
      case Date =>
      case Time =>
      case FirstName =>
      case LastName =>
      case PhoneNumber =>
      case Email =>
      case Address =>
      case FoodAllergies =>
    }
  }

  /** One `{ ...formData, [name]: value }` update. */
  datatype Edit = SetText(field: TextField, text: string) | SetGuestCount(count: int)

  function FieldOf(e: Edit): Field {
    match e
    case SetText(f, _) => f
    case SetGuestCount(_) => GuestCount
  }

  /** The record after an edit: the edited field takes the new value and every other field keeps its own. */
  function Apply(d: FormData, e: Edit): (r: FormData)
    ensures e.SetText? ==> Text(r, e.field) == e.text && r.guestCount == d.guestCount
    ensures e.SetText? ==> forall f: TextField :: f != e.field ==> Text(r, f) == Text(d, f)
    ensures e.SetGuestCount? ==> r.guestCount == e.count && forall f: TextField :: Text(r, f) == Text(d, f)
  {
    match e
    case SetGuestCount(n) => d.(guestCount := n)
    case SetText(f, v) =>
      match f
      case Date => d.(date := v)
      case Time => d.(time := v)
      case FirstName => d.(firstName := v)
      case LastName => d.(lastName := v)
      case PhoneNumber => d.(phoneNumber := v)
      case Email => d.(email := v)
      case Address => d.(address := v)
      case FoodAllergies => d.(foodAllergies := v)
  }

  /** An edit of any field other than date and time leaves the chosen date and time as they were. */
  lemma EditKeepsDateAndTime(d: FormData, e: Edit)
    requires FieldOf(e) != Date && FieldOf(e) != Time
    ensures Apply(d, e).date == d.date && Apply(d, e).time == d.time
  {
    assert Text(Apply(d, e), Date) == Text(d, Date);
    assert Text(Apply(d, e), Time) == Text(d, Time);
  }

  // ---------------------------------------------------------------------
  // The error map. Its values are the fixed messages validateStep writes,
  // or the empty string a handler writes when it clears an error: clearing
  // stores "" under the key rather than removing it, so "has an error"
  // means a key whose message is not the cleared one.
  // ---------------------------------------------------------------------

  datatype Message =
    | Cleared
    | DateRequired | TimeRequired
    | FirstNameRequired | LastNameRequired | PhoneNumberRequired
    | EmailRequired | EmailInvalid | AddressRequired | GuestCountTooSmall

  /** The text shown under the field; only a cleared entry is the empty, falsy string. */
  function MessageText(m: Message): (s: string)
    ensures s == "" <==> m == Cleared
  {
    match m
    case Cleared => ""
    case DateRequired => "Please select a date"
    case TimeRequired => "Please select a time"
    case FirstNameRequired => "First name is required"
    case LastNameRequired => "Last name is required"
    case PhoneNumberRequired => "Phone number is required"
    case EmailRequired => "Email is required"
    case EmailInvalid => "Email address is invalid"
    case AddressRequired => "Address is required"
    case GuestCountTooSmall => "Guest count must be at least 1"
  }

  type Errors = map<Field, Message>

  /** `errors[name]` is truthy: the key is there and its text is not empty. */
  predicate HasError(errors: Errors, f: Field) {
    f in errors && MessageText(errors[f]) != ""
  }

  /** `if (errors[name]) setErrors({ ...errors, [name]: "" })`: blanks one truthy message, keeps every key. */
  function ClearError(errors: Errors, f: Field): (r: Errors)
    ensures !HasError(r, f)
    ensures r.Keys == errors.Keys
    ensures forall g :: g in errors && g != f ==> r[g] == errors[g]
    ensures !HasError(errors, f) ==> r == errors
  {
    if HasError(errors, f) then errors[f := Cleared] else errors
  }

  /** Clearing an error changes which fields have an error in exactly that one field. */
  lemma ClearErrorOnlyThatField(errors: Errors, f: Field, g: Field)
    ensures HasError(ClearError(errors, f), g) <==> HasError(errors, g) && g != f
  {
  }

  // ---------------------------------------------------------------------
  // String.prototype.trim and the regular expression \s class: both use
  // the ECMAScript WhiteSpace and LineTerminator code points.
  // ---------------------------------------------------------------------

  predicate IsSpace(c: char) {
    c == '\t' || c == '\n' || c == '\U{0B}' || c == '\U{0C}' || c == '\r' || c == ' '
    || c == '\U{A0}' || c == '\U{1680}' || ('\U{2000}' <= c <= '\U{200A}')
    || c == '\U{2028}' || c == '\U{2029}' || c == '\U{202F}' || c == '\U{205F}'
    || c == '\U{3000}' || c == '\U{FEFF}'
  }

  predicate AllSpace(s: string) {
    forall k :: 0 <= k < |s| ==> IsSpace(s[k])
  }

  /** String.prototype.trimStart: drops the leading white space. */
  function TrimStart(s: string): string {
    if s != "" && IsSpace(s[0]) then TrimStart(s[1..]) else s
  }

  /** String.prototype.trimEnd: drops the trailing white space. */
  function TrimEnd(s: string): string {
    if s != "" && IsSpace(s[|s| - 1]) then TrimEnd(s[..|s| - 1]) else s
  }

  /** String.prototype.trim: what is left neither starts nor ends with white space. */
  function Trim(s: string): (r: string)
    ensures |r| <= |s|
    ensures r != "" ==> !IsSpace(r[0]) && !IsSpace(r[|r| - 1])
  {
    TrimStartKeepsSuffix(s);
    TrimEndKeepsPrefix(TrimStart(s));
    TrimEnd(TrimStart(s))
  }

  /**
   * trim removes only white space, and only at the two ends: the result is
   * a slice of `s` with nothing but white space before and after it.
   */
  lemma TrimRemovesOnlyOuterSpace(s: string)
    ensures exists a :: 0 <= a && a + |Trim(s)| <= |s| && Trim(s) == s[a..a + |Trim(s)|]
                        && AllSpace(s[..a]) && AllSpace(s[a + |Trim(s)|..])
  {
    var t := TrimStart(s);
    TrimStartKeepsSuffix(s);
    TrimEndKeepsPrefix(t);
    var r := Trim(s);
    var a := |s| - |t|;
    assert r == t[..|r|];
    assert t == s[a..];
    assert r == s[a..a + |r|];
    assert s[a + |r|..] == t[|r|..];
  }

  /** trimStart keeps a suffix that does not start with white space and drops only white space. */
  lemma {:induction false} TrimStartKeepsSuffix(s: string)
    ensures var r := TrimStart(s);
      && |r| <= |s| && r == s[|s| - |r|..]
      && (r == "" || !IsSpace(r[0]))
      && AllSpace(s[..|s| - |r|])
  {
    if s != "" && IsSpace(s[0]) {
      TrimStartKeepsSuffix(s[1..]);
      var r := TrimStart(s[1..]);
      assert s[..|s| - |r|] == [s[0]] + s[1..][..|s| - 1 - |r|];
    }
  }

  /** trimEnd keeps a prefix that does not end with white space and drops only white space. */
  lemma {:induction false} TrimEndKeepsPrefix(s: string)
    ensures var r := TrimEnd(s);
      && |r| <= |s| && r == s[..|r|]
      && (r == "" || !IsSpace(r[|r| - 1]))
      && AllSpace(s[|r|..])
  {
    if s != "" && IsSpace(s[|s| - 1]) {
      TrimEndKeepsPrefix(s[..|s| - 1]);
      var r := TrimEnd(s[..|s| - 1]);
      assert s[|r|..] == s[..|s| - 1][|r|..] + [s[|s| - 1]];
    }
  }

  /** `!value.trim()`: the trimmed value is empty, that is, the value is all white space. */
  function IsBlank(s: string): (blank: bool)
    ensures blank <==> AllSpace(s)
  {
    TrimIsEmptyIffAllSpace(s);
    Trim(s) == ""
  }

  /** A value trims to nothing exactly when every character in it is white space. */
  lemma TrimIsEmptyIffAllSpace(s: string)
    ensures TrimEnd(TrimStart(s)) == "" <==> AllSpace(s)
  {
    var t := TrimStart(s);
    TrimStartKeepsSuffix(s);
    TrimEndKeepsPrefix(t);
  }

  // ---------------------------------------------------------------------
  // The e-mail check /\S+@\S+\.\S+/.test(email), which is not anchored.
  // ---------------------------------------------------------------------

  /** A non-empty run of non-white-space characters s[lo..hi]. */
  predicate Run(s: string, lo: int, hi: int) {
    0 <= lo < hi <= |s| && forall k :: lo <= k < hi ==> !IsSpace(s[k])
  }

  /** A non-empty run of non-white-space characters right after position p, up to hi. */
  predicate RunAfter(s: string, p: int, hi: int) {
    Run(s, p + 1, hi)
  }

  /** The regular expression read literally: somewhere in s there is \S+, then '@', then \S+, then '.', then \S+. */
  ghost predicate RegexOccurs(s: string) {
    exists a, i, j, b ::
      Run(s, a, i) && RunAfter(s, i, j) && RunAfter(s, j, b) && s[i] == '@' && s[j] == '.'
  }

  /** An '@' at i and a '.' at j, with one character before the '@', one after the '.', and no white space from the one to the other. */
  predicate MatchAt(s: string, i: int, j: int) {
    && 1 <= i && i + 2 <= j && j + 2 <= |s| && s[i] == '@' && s[j] == '.'
    && forall k :: i - 1 <= k < j + 2 ==> !IsSpace(s[k])
  }

  /**
   * The check as computed: a shortest match somewhere in the value. It
   * holds exactly when the regular expression occurs in the value.
   */
  function EmailPatternMatches(s: string): (matched: bool)
    ensures matched <==> RegexOccurs(s)
  {
    ShortestMatchIffRegex(s);
    exists i, j | 1 <= i < |s| && 0 <= j < |s| :: MatchAt(s, i, j)
  }

  /** A shortest match exists exactly when the regular expression occurs. */
  lemma ShortestMatchIffRegex(s: string)
    ensures (exists i, j | 1 <= i < |s| && 0 <= j < |s| :: MatchAt(s, i, j)) <==> RegexOccurs(s)
  {
    if exists i, j | 1 <= i < |s| && 0 <= j < |s| :: MatchAt(s, i, j) {
      var i, j :| 1 <= i < |s| && 0 <= j < |s| && MatchAt(s, i, j);
      assert Run(s, i - 1, i) && RunAfter(s, i, j) && RunAfter(s, j, j + 2);
    }
    if RegexOccurs(s) {
      var a, i, j, b :| Run(s, a, i) && RunAfter(s, i, j) && RunAfter(s, j, b) && s[i] == '@' && s[j] == '.';
      forall k | i - 1 <= k < j + 2 ensures !IsSpace(s[k]) {
        if k == i {
        } else if k == j {
        } else if k < i {
          assert a <= k < i;
        } else if k < j {
          assert i + 1 <= k < j;
        } else {
          assert j + 1 <= k < b;
        }
      }
      assert MatchAt(s, i, j);
    }
  }

  /** A match inside s is a match at the shifted place inside pre + s + post. */
  lemma MatchAtShifts(pre: string, s: string, post: string, i: int, j: int)
    requires MatchAt(s, i, j)
    ensures MatchAt(pre + s + post, |pre| + i, |pre| + j)
  {
    var t := pre + s + post;
    var n := |pre|;
    forall k | n + i - 1 <= k < n + j + 2 ensures !IsSpace(t[k]) {
      assert t[k] == s[k - n];
    }
  }

  /** Being unanchored, a match survives any text added before and after it. */
  lemma EmailMatchSurvivesContext(pre: string, s: string, post: string)
    requires EmailPatternMatches(s)
    ensures EmailPatternMatches(pre + s + post)
  {
    var i, j :| 1 <= i < |s| && 0 <= j < |s| && MatchAt(s, i, j);
    MatchAtShifts(pre, s, post, i, j);
  }

  /** Any local@domain.tld whose three parts are non-empty and free of white space passes. */
  lemma EmailAddressMatches(local: string, domain: string, tld: string)
    requires local != "" && domain != "" && tld != ""
    requires forall k :: 0 <= k < |local| ==> !IsSpace(local[k])
    requires forall k :: 0 <= k < |domain| ==> !IsSpace(domain[k])
    requires forall k :: 0 <= k < |tld| ==> !IsSpace(tld[k])
    ensures EmailPatternMatches(local + "@" + domain + "." + tld)
  {
    var s := local + "@" + domain + "." + tld;
    var i := |local|;
    var j := |local| + 1 + |domain|;
    forall k | i - 1 <= k < j + 2 ensures !IsSpace(s[k]) {
      if k < i {
        assert s[k] == local[k];
      } else if i < k < j {
        assert s[k] == domain[k - i - 1];
      } else if k == j + 1 {
        assert s[k] == tld[0];
      }
    }
    assert MatchAt(s, i, j);
  }

  /** Being unanchored, the check lets "a b@c.d" through; "not-an-email" has no '@' and fails. */
  lemma EmailExamples()
    ensures EmailPatternMatches("a b@c.d")
    ensures !EmailPatternMatches("not-an-email")
  {
    assert MatchAt("a b@c.d", 3, 5);
    var s := "not-an-email";
    assert forall k :: 0 <= k < |s| ==> s[k] != '@';
  }

  /** A value that passes the check is never blank, so "required" and "invalid" never both apply. */
  lemma EmailMatchIsNotBlank(s: string)
    ensures EmailPatternMatches(s) ==> !IsBlank(s) && !AllSpace(s)
  {
    if !EmailPatternMatches(s) { return; }
    var i, j :| 1 <= i < |s| && 0 <= j < |s| && MatchAt(s, i, j);
    assert !IsSpace(s[i]);
  }

  // ---------------------------------------------------------------------
  // validateStep's rules.
  // ---------------------------------------------------------------------


  /** Records a message for f when its rule failed. */
  function Flag(m: Errors, failed: bool, f: Field, message: Message): Errors {
    if failed then m[f := message] else m
  }

  /**
   * The error map validateStep builds from scratch, rule after rule in the
   * order they are checked; the e-mail gets "required" or, failing that,
   * "invalid".
   */
  function StepErrors(step: int, d: FormData): (errs: Errors)
    ensures forall f :: f in errs ==> errs[f] != Cleared
  {
    if step == 1 then
      var m := Flag(map[], d.date == "", Date, DateRequired);
      Flag(m, d.time == "", Time, TimeRequired)
    else if step == 2 then
      var m := Flag(map[], IsBlank(d.firstName), FirstName, FirstNameRequired);
      var m := Flag(m, IsBlank(d.lastName), LastName, LastNameRequired);
      var m := Flag(m, IsBlank(d.phoneNumber), PhoneNumber, PhoneNumberRequired);
      var m := if IsBlank(d.email) then m[Email := EmailRequired]
               else Flag(m, !EmailPatternMatches(d.email), Email, EmailInvalid);
      var m := Flag(m, IsBlank(d.address), Address, AddressRequired);
      Flag(m, d.guestCount < 1, GuestCount, GuestCountTooSmall)
    else map[]
  }

  /** Every message is non-empty, so a key in a freshly built map always means an error. */
  lemma StepErrorsAreErrors(step: int, d: FormData, f: Field)
    ensures HasError(StepErrors(step, d), f) <==> f in StepErrors(step, d)
  {
  }

  /** Step 1: a date error exactly when no date is selected, a time error exactly when no time is, nothing else. */
  lemma StepOneRules(d: FormData)
    ensures var errs := StepErrors(1, d);
      && errs.Keys <= {Date, Time}
      && (Date in errs <==> d.date == "") && (Date in errs ==> errs[Date] == DateRequired)
      && (Time in errs <==> d.time == "") && (Time in errs ==> errs[Time] == TimeRequired)
  {
  }

  /** Step 2 checks only the customer details, never date or time. */
  lemma StepTwoFields(d: FormData)
    ensures StepErrors(2, d).Keys <= {FirstName, LastName, PhoneNumber, Email, Address, GuestCount}
  {
  }

  // Step 2 requires the names, the phone number and the address; a value
  // counts as missing when trimming leaves nothing, that is, when it is all
  // white space.

  lemma StepTwoFirstName(d: FormData)
    ensures var errs := StepErrors(2, d);
      (FirstName in errs <==> AllSpace(d.firstName)) && (FirstName in errs ==> errs[FirstName] == FirstNameRequired)
  {
  }

  lemma StepTwoLastName(d: FormData)
    ensures var errs := StepErrors(2, d);
      (LastName in errs <==> AllSpace(d.lastName)) && (LastName in errs ==> errs[LastName] == LastNameRequired)
  {
  }

  lemma StepTwoPhoneNumber(d: FormData)
    ensures var errs := StepErrors(2, d);
      (PhoneNumber in errs <==> AllSpace(d.phoneNumber)) && (PhoneNumber in errs ==> errs[PhoneNumber] == PhoneNumberRequired)
  {
  }

  lemma StepTwoAddress(d: FormData)
    ensures var errs := StepErrors(2, d);
      (Address in errs <==> AllSpace(d.address)) && (Address in errs ==> errs[Address] == AddressRequired)
  {
  }

  /** Step 2: an e-mail error exactly when the check fails, "required" for a blank value and "invalid" otherwise. */
  lemma StepTwoEmail(d: FormData)
    ensures var errs := StepErrors(2, d);
      && (Email in errs <==> !EmailPatternMatches(d.email))
      && (Email in errs ==> errs[Email] == if AllSpace(d.email) then EmailRequired else EmailInvalid)
  {
    EmailMatchIsNotBlank(d.email);
  }

  /** Step 2: a guest-count error exactly when fewer than one guest is entered. */
  lemma StepTwoGuestCount(d: FormData)
    ensures var errs := StepErrors(2, d);
      (GuestCount in errs <==> d.guestCount < 1) && (GuestCount in errs ==> errs[GuestCount] == GuestCountTooSmall)
  {
  }

  /** Steps other than 1 and 2 check nothing. */
  lemma OtherStepsCheckNothing(step: int, d: FormData)
    requires step != 1 && step != 2
    ensures StepErrors(step, d) == map[]
  {
  }

  /** Validation passes (the new map is empty) exactly when every rule of the step holds. */
  lemma ValidationPassesIff(step: int, d: FormData)
    ensures StepErrors(step, d) == map[] <==>
      (step == 1 ==> d.date != "" && d.time != "")
      && (step == 2 ==>
            !AllSpace(d.firstName) && !AllSpace(d.lastName) && !AllSpace(d.phoneNumber)
            && EmailPatternMatches(d.email) && !AllSpace(d.address) && d.guestCount >= 1)
  {
    var errs := StepErrors(step, d);
    if step == 1 {
      StepOneRules(d);
      if errs != map[] {
        var f :| f in errs;
      }
    } else if step == 2 {
      StepTwoFields(d);
      StepTwoFirstName(d);
      StepTwoLastName(d);
      StepTwoPhoneNumber(d);
      StepTwoAddress(d);
      StepTwoEmail(d);
      StepTwoGuestCount(d);
      if errs != map[] {
        var f :| f in errs;
      }
    }
  }

  /** Editing a field never changes step 1's verdict on the other fields. */
  lemma StepOneIgnoresOtherEdits(d: FormData, e: Edit)
    requires FieldOf(e) != Date && FieldOf(e) != Time
    ensures StepErrors(1, Apply(d, e)) == StepErrors(1, d)
  {
    var r := Apply(d, e);
    assert r.date == Text(r, Date) == Text(d, Date);
    assert r.time == Text(r, Time) == Text(d, Time);
  }

  /** validateStep: starts from an empty map and adds one message per failing rule, in the order the rules are checked. */
  method ComputeStepErrors(step: int, d: FormData) returns (newErrors: Errors)
    ensures newErrors == StepErrors(step, d)
  {
    newErrors := map[];
    if step == 1 {
      if d.date == "" { newErrors := newErrors[Date := DateRequired]; }
      if d.time == "" { newErrors := newErrors[Time := TimeRequired]; }
    } else if step == 2 {
      ghost var m := newErrors;
      if IsBlank(d.firstName) { newErrors := newErrors[FirstName := FirstNameRequired]; }
      assert newErrors == Flag(m, IsBlank(d.firstName), FirstName, FirstNameRequired);
      m := newErrors;
      if IsBlank(d.lastName) { newErrors := newErrors[LastName := LastNameRequired]; }
      assert newErrors == Flag(m, IsBlank(d.lastName), LastName, LastNameRequired);
      m := newErrors;
      if IsBlank(d.phoneNumber) { newErrors := newErrors[PhoneNumber := PhoneNumberRequired]; }
      assert newErrors == Flag(m, IsBlank(d.phoneNumber), PhoneNumber, PhoneNumberRequired);
      m := newErrors;
      if IsBlank(d.email) {
        newErrors := newErrors[Email := EmailRequired];
      } else if !EmailPatternMatches(d.email) {
        newErrors := newErrors[Email := EmailInvalid];
      }
      assert newErrors == if IsBlank(d.email) then m[Email := EmailRequired]
                          else Flag(m, !EmailPatternMatches(d.email), Email, EmailInvalid);
      m := newErrors;
      if IsBlank(d.address) { newErrors := newErrors[Address := AddressRequired]; }
      assert newErrors == Flag(m, IsBlank(d.address), Address, AddressRequired);
      m := newErrors;
      if d.guestCount < 1 { newErrors := newErrors[GuestCount := GuestCountTooSmall]; }
      assert newErrors == Flag(m, d.guestCount < 1, GuestCount, GuestCountTooSmall);
    }
  }
}
