/** The sign-up page (scripts/register.js): form validation, the duplicate
    check, the new account and its roster entry, and the password-strength
    meter. */
module Register {
  import opened Common
  import opened Entities

  // ---------------------------------------------------------------------
  // Field formats

  /** `[^\s@]`: a character allowed in each part of an e-mail address. */
  predicate EmailChar(c: char)
  {
    c != '@' && !IsSpace(c)
  }

  predicate EmailChars(s: string)
  {
    forall i :: 0 <= i < |s| ==> EmailChar(s[i])
  }

  /** A slice is made of e-mail characters exactly when each position in
      it holds one. */
  lemma EmailCharsSlice(s: string, lo: nat, hi: nat)
    requires lo <= hi <= |s|
    ensures EmailChars(s[lo..hi]) <==> forall i :: lo <= i < hi ==> EmailChar(s[i])
  {
    assert forall i :: lo <= i < hi ==> s[lo..hi][i - lo] == s[i];
  }

  predicate IsAt(c: char) { c == '@' }

  predicate IsDot(c: char) { c == '.' }

  /** What `/^[^\s@]+@[^\s@]+\.[^\s@]+$/` accepts, read off the pattern: a
      non-empty local part, '@', a non-empty name, '.', and a non-empty
      rest, none of the three holding '@' or white space. */
  predicate EmailPattern(e: string)
  {
    exists at: nat, dot: nat ::
      && 1 <= at && at + 2 <= dot && dot + 2 <= |e|
      && e[at] == '@' && e[dot] == '.'
      && EmailChars(e[..at]) && EmailChars(e[at + 1..dot]) && EmailChars(e[dot + 1..])
  }

  /** The e-mail test as a scan: the first '@' is not the first character,
      nothing around it is '@' or white space, and after the character that
      follows it there is a '.' that is not the last character. */
  function ValidEmail(e: string): bool
  {
    var at := FirstIndex(e, IsAt);
    && at >= 1 && EmailChars(e[..at]) && EmailChars(e[at + 1..])
    && var domain := e[at + 1..];
       && |domain| >= 3
       && var k := FirstIndex(domain[1..], IsDot);
          k >= 0 && k + 3 <= |domain|
  }

  lemma ValidEmailSound(e: string)
    requires ValidEmail(e)
    ensures EmailPattern(e)
  {
    var at := FirstIndex(e, IsAt);
    var domain := e[at + 1..];
    var k := FirstIndex(domain[1..], IsDot);
    var dot := at + 2 + k;
    assert e[dot] == domain[1..][k];
    EmailCharsSlice(e, at + 1, |e|);
    EmailCharsSlice(e, at + 1, dot);
    EmailCharsSlice(e, dot + 1, |e|);
    assert e[at + 1..] == e[at + 1..|e|] && e[dot + 1..] == e[dot + 1..|e|];
  }

  lemma ValidEmailComplete(e: string, at: nat, dot: nat)
    requires 1 <= at && at + 2 <= dot && dot + 2 <= |e|
    requires e[at] == '@' && e[dot] == '.'
    requires EmailChars(e[..at]) && EmailChars(e[at + 1..dot]) && EmailChars(e[dot + 1..])
    ensures ValidEmail(e)
  {
    assert forall i :: 0 <= i < at ==> e[i] == e[..at][i];
    assert FirstIndex(e, IsAt) == at;
    var domain := e[at + 1..];
    assert e[at + 1..] == e[at + 1..|e|] && e[dot + 1..] == e[dot + 1..|e|];
    EmailCharsSlice(e, at + 1, |e|);
    EmailCharsSlice(e, at + 1, dot);
    EmailCharsSlice(e, dot + 1, |e|);
    assert domain[1..][dot - at - 2] == '.';
  }

  /** The scan accepts exactly what the pattern describes. */
  lemma ValidEmailIsPattern(e: string)
    ensures ValidEmail(e) <==> EmailPattern(e)
  {
    if ValidEmail(e) {
      ValidEmailSound(e);
    }
    if EmailPattern(e) {
      var at: nat, dot: nat :| && 1 <= at && at + 2 <= dot && dot + 2 <= |e|
                               && e[at] == '@' && e[dot] == '.'
                               && EmailChars(e[..at]) && EmailChars(e[at + 1..dot]) && EmailChars(e[dot + 1..]);
      ValidEmailComplete(e, at, dot);
    }
  }

  /** `[a-zA-Z0-9_]`. */
  predicate UsernameChar(c: char)
  {
    'a' <= c <= 'z' || 'A' <= c <= 'Z' || '0' <= c <= '9' || c == '_'
  }

  /** `/^[a-zA-Z0-9_]{3,20}$/`. */
  predicate ValidUsername(u: string)
  {
    3 <= |u| <= 20 && forall i :: 0 <= i < |u| ==> UsernameChar(u[i])
  }

  /** The characters `phone.replace(/[\s\-$$$$]/g, "")` removes: white
      space, '-' and '$'. */
  predicate PhoneSeparator(c: char)
  {
    IsSpace(c) || c == '-' || c == '$'
  }

  predicate NotSeparator(c: char) { !PhoneSeparator(c) }

  function StripPhone(phone: string): (r: string)
    ensures forall c :: c in r <==> c in phone && !PhoneSeparator(c)
  {
    Filter(phone, NotSeparator)
  }

  /** `/^[+]?[1-9][\d]{0,15}$/`: an optional '+', then one to sixteen
      digits, the first not 0. */
  predicate PhoneDigits(p: string)
  {
    var q := if |p| > 0 && p[0] == '+' then p[1..] else p;
    1 <= |q| <= 16 && '1' <= q[0] <= '9' && AllDigits(q)
  }

  predicate ValidPhone(phone: string)
  {
    PhoneDigits(StripPhone(phone))
  }

  /** Separators are invisible to the phone check wherever they stand. */
  lemma SeparatorIgnored(a: string, c: char, b: string)
    requires PhoneSeparator(c)
    ensures ValidPhone(a + [c] + b) == ValidPhone(a + b)
  {
    FilterAppend(a + [c], b, NotSeparator);
    FilterAppend(a, [c], NotSeparator);
    FilterAppend(a, b, NotSeparator);
    assert [c][1..] == [];
    assert Filter([c], NotSeparator) == [];
    assert StripPhone(a + [c] + b) == StripPhone(a + b);
  }

  // ---------------------------------------------------------------------
  // The form

  /** The sign-up form as submitted. A missing field is "". agreeTerms is
      whether the box was ticked; newsletter is the checkbox's value. */
  datatype RegistrationForm = RegistrationForm(
    firstName: string,
    lastName: string,
    email: string,
    username: string,
    password: string,
    confirmPassword: string,
    phone: string,
    userType: string,
    agreeTerms: bool,
    newsletter: string)

  /** Why `validateForm` refused a form, in the order it checks. */
  datatype FormError =
    | MissingField
    | BadEmail
    | BadUsername
    | ShortPassword
    | PasswordMismatch
    | TermsNotAccepted
    | BadPhone

  predicate MissingRequired(f: RegistrationForm)
  {
    f.firstName == "" || f.lastName == "" || f.email == "" || f.username == "" || f.password == ""
  }

  /** Every rule of the form at once. */
  predicate Acceptable(f: RegistrationForm)
  {
    && !MissingRequired(f)
    && ValidEmail(f.email)
    && ValidUsername(f.username)
    && |f.password| >= 6
    && f.password == f.confirmPassword
    && f.agreeTerms
    && (f.phone == "" || ValidPhone(f.phone))
  }

  /** `validateForm`: the first rule the form breaks, if any. */
  function ValidateForm(f: RegistrationForm): (r: Option<FormError>)
    ensures r.None? <==> Acceptable(f)
    ensures r == Some(MissingField) <==> MissingRequired(f)
    ensures r == Some(BadPhone) ==> f.phone != "" && !ValidPhone(f.phone)
  {
    if MissingRequired(f) then Some(MissingField)
    else if !ValidEmail(f.email) then Some(BadEmail)
    else if !ValidUsername(f.username) then Some(BadUsername)
    else if |f.password| < 6 then Some(ShortPassword)
    else if f.password != f.confirmPassword then Some(PasswordMismatch)
    else if !f.agreeTerms then Some(TermsNotAccepted)
    else if f.phone != "" && !ValidPhone(f.phone) then Some(BadPhone)
    else None
  }

  // ---------------------------------------------------------------------
  // The account and its roster entry

  /** `generateUserId`: "U", the last six digits of the clock reading and a
      random number below 1000 padded to three digits. */
  function GenerateUserId(now: nat, rand: nat): (id: string)
    requires rand < 1000
    ensures 5 <= |id| <= 10 && id[0] == 'U' && AllDigits(id[1..])
    ensures |id| == 4 + Min(6, |Decimal(now)|)
    ensures now >= 100000 ==> |id| == 10
  {
    StampedId('U', now, rand)
  }

  /** The account the submit handler stores: full name "first last", the
      phone or "", status Active, the clock as registration time and the
      newsletter box ticked exactly when its value is "on". */
  function NewUser(f: RegistrationForm, now: nat, rand: nat): (u: User)
    requires rand < 1000
    ensures u.id == GenerateUserId(now, rand)
    ensures u.fullName == f.firstName + " " + f.lastName
    ensures u.firstName == f.firstName && u.lastName == f.lastName
    ensures u.email == f.email && u.username == f.username && u.password == f.password
    ensures u.phone == f.phone && u.userType == f.userType && u.status == Active
    ensures u.registrationDate == now && (u.newsletter <==> f.newsletter == "on")
  {
    User(GenerateUserId(now, rand), f.firstName, f.lastName, f.firstName + " " + f.lastName, f.email,
         f.username, f.password, f.phone, f.userType, Active, now, f.newsletter == "on")
  }

  /** `addToMembers`: the roster entry of a new account, whose id is the
      account id with its first letter replaced by "M". */
  function MemberFromUser(u: User, now: nat): (m: Member)
    requires |u.id| >= 1
    ensures |m.id| == |u.id| && m.id[0] == 'M' && m.id[1..] == u.id[1..]
    ensures m.name == u.fullName && m.email == u.email && m.phone == u.phone
    ensures m.memberType == u.userType && m.status == Active && m.address == "" && m.joinDate == Today(now)
  {
    Member("M" + u.id[1..], u.fullName, u.email, u.phone, u.userType, Active, "", Today(now))
  }

  /** An account with the username or the e-mail address already exists. */
  predicate Taken(users: seq<User>, username: string, email: string)
  {
    exists i :: 0 <= i < |users| && (users[i].username == username || users[i].email == email)
  }

  /** The submit handler: a form `validateForm` refuses changes nothing; a
      taken username or e-mail changes nothing; otherwise the account is
      appended and, unless its type is "Admin", its roster entry too. */
  function Register(s: Store, f: RegistrationForm, now: nat, rand: nat): (r: Result<Store>)
    requires rand < 1000
    ensures r == Err(Validation) <==> !Acceptable(f)
    ensures Acceptable(f) ==> (r == Err(Duplicate) <==> Taken(s.users, f.username, f.email))
    ensures r.Err? ==> r.error == Validation || r.error == Duplicate
    ensures r.Ok? ==>
      && r.value.users == s.users + [NewUser(f, now, rand)]
      && r.value.members == s.members + (if f.userType != "Admin" then [MemberFromUser(NewUser(f, now, rand), now)] else [])
      && r.value.books == s.books && r.value.transactions == s.transactions
  {
    if ValidateForm(f).Some? then Err(Validation)
    else if Taken(s.users, f.username, f.email) then Err(Duplicate)
    else
      var u := NewUser(f, now, rand);
      Ok(s.(users := s.users + [u],
            members := if f.userType != "Admin" then s.members + [MemberFromUser(u, now)] else s.members))
  }

  /** No two accounts share a username or an e-mail address. */
  predicate UniqueAccounts(users: seq<User>)
  {
    forall i, j :: 0 <= i < j < |users| ==>
      users[i].username != users[j].username && users[i].email != users[j].email
  }

  /** Registration keeps usernames and e-mail addresses unique. */
  lemma RegisterKeepsAccountsUnique(s: Store, f: RegistrationForm, now: nat, rand: nat)
    requires rand < 1000 && UniqueAccounts(s.users)
    requires Register(s, f, now, rand).Ok?
    ensures UniqueAccounts(Register(s, f, now, rand).value.users)
  {
    var users' := Register(s, f, now, rand).value.users;
    var n := |s.users|;
    forall i, j | 0 <= i < j < |users'|
      ensures users'[i].username != users'[j].username && users'[i].email != users'[j].email
    {
      if j == n {
        assert users'[i] == s.users[i];
        assert !(s.users[i].username == f.username || s.users[i].email == f.email);
      } else {
        assert users'[i] == s.users[i] && users'[j] == s.users[j];
      }
    }
  }

  /** Submitting the same form again after it succeeded is refused as a
      duplicate. */
  lemma RegisterTwiceDuplicate(s: Store, f: RegistrationForm, now: nat, rand: nat, now2: nat, rand2: nat)
    requires rand < 1000 && rand2 < 1000
    requires Register(s, f, now, rand).Ok?
    ensures Register(Register(s, f, now, rand).value, f, now2, rand2) == Err(Duplicate)
  {
    var s' := Register(s, f, now, rand).value;
    assert s'.users[|s.users|].username == f.username;
  }

  /** A registered non-admin appears on the roster under the account's
      digits with an "M" in front, and an admin does not. */
  lemma RegisterRosterEntry(s: Store, f: RegistrationForm, now: nat, rand: nat)
    requires rand < 1000
    requires Register(s, f, now, rand).Ok?
    ensures var s' := Register(s, f, now, rand).value;
      var uid := GenerateUserId(now, rand);
      && (f.userType == "Admin" ==> s'.members == s.members)
      && (f.userType != "Admin" ==>
            && |s'.members| == |s.members| + 1
            && s'.members[|s.members|].id == "M" + uid[1..]
            && s'.members[|s.members|].memberType == f.userType)
  {
    var s' := Register(s, f, now, rand).value;
    if f.userType != "Admin" {
      var m := s'.members[|s.members|];
      assert m.id[0] == 'M' && m.id[1..] == GenerateUserId(now, rand)[1..];
      assert m.id == [m.id[0]] + m.id[1..];
    }
  }

  // ---------------------------------------------------------------------
  // Password strength

  predicate HasUpper(p: string) { exists i :: 0 <= i < |p| && 'A' <= p[i] <= 'Z' }

  predicate HasLower(p: string) { exists i :: 0 <= i < |p| && 'a' <= p[i] <= 'z' }

  predicate HasDigit(p: string) { exists i :: 0 <= i < |p| && '0' <= p[i] <= '9' }

  /** `/[^A-Za-z0-9]/`: some character outside letters and digits. */
  predicate HasOther(p: string)
  {
    exists i :: 0 <= i < |p| && !('A' <= p[i] <= 'Z' || 'a' <= p[i] <= 'z' || '0' <= p[i] <= '9')
  }

  /** The six criteria the meter counts, in its order. */
  function Criteria(p: string): seq<bool>
  {
    [|p| >= 6, |p| >= 8, HasUpper(p), HasLower(p), HasDigit(p), HasOther(p)]
  }

  predicate Holds(b: bool) { b }

  /** `getPasswordStrength`: one point for each criterion met. */
  method PasswordStrength(password: string) returns (strength: nat)
    ensures strength == Count(Criteria(password), Holds)
    ensures strength <= 6
    ensures strength == 6 <==> |password| >= 8 && HasUpper(password) && HasLower(password)
                                && HasDigit(password) && HasOther(password)
    ensures strength == 0 <==> password == ""
    ensures |password| >= 6 ==> strength >= 2
  {
    strength := 0;
    if |password| >= 6 { strength := strength + 1; }
    if |password| >= 8 { strength := strength + 1; }
    if HasUpper(password) { strength := strength + 1; }
    if HasLower(password) { strength := strength + 1; }
    if HasDigit(password) { strength := strength + 1; }
    if HasOther(password) { strength := strength + 1; }
    CriteriaCount(password);
    if password != "" {
      OneClass(password);
    }
  }

  /** The count of the six criteria, one term each. */
  lemma CriteriaCount(p: string)
    ensures Count(Criteria(p), Holds) ==
      (if |p| >= 6 then 1 else 0) + (if |p| >= 8 then 1 else 0) + (if HasUpper(p) then 1 else 0)
      + (if HasLower(p) then 1 else 0) + (if HasDigit(p) then 1 else 0) + (if HasOther(p) then 1 else 0)
  {
    var c := Criteria(p);
    assert Count(c[..1], Holds) == (if c[0] then 1 else 0) by { assert c[..1][..0] == []; }
    assert Count(c[..2], Holds) == Count(c[..1], Holds) + (if c[1] then 1 else 0) by { assert c[..2][..1] == c[..1]; }
    assert Count(c[..3], Holds) == Count(c[..2], Holds) + (if c[2] then 1 else 0) by { assert c[..3][..2] == c[..2]; }
    assert Count(c[..4], Holds) == Count(c[..3], Holds) + (if c[3] then 1 else 0) by { assert c[..4][..3] == c[..3]; }
    assert Count(c[..5], Holds) == Count(c[..4], Holds) + (if c[4] then 1 else 0) by { assert c[..5][..4] == c[..4]; }
    assert Count(c, Holds) == Count(c[..5], Holds) + (if c[5] then 1 else 0) by { assert c[..|c| - 1] == c[..5]; }
  }

  /** Every character falls in one of the four classes. */
  lemma OneClass(p: string)
    requires p != ""
    ensures HasUpper(p) || HasLower(p) || HasDigit(p) || HasOther(p)
  {
    var c := p[0];
    if 'A' <= c <= 'Z' { assert HasUpper(p); }
    else if 'a' <= c <= 'z' { assert HasLower(p); }
    else if '0' <= c <= '9' { assert HasDigit(p); }
    else { assert HasOther(p); }
  }
}
