/**
 * The field-cleaning rules of the phonebook forms. Each clean function either returns the cleaned
 * value or rejects the input with a ValidationError; a Python KeyError or IndexError that escapes a
 * clean function is modelled as an error of its own. The user table the forms query is a
 * sequence of accounts, each a `User` joined with its `UserProfile`.
 */
module PhonebookForms {
  import opened Wrappers
  import opened PyText
  import opened UrlPattern

  /** Why a clean function gave no value. */
  datatype FormError =
    | ValidationError(message: string)  // the form is redisplayed with this message
    | KeyError(key: string)             // an escaped Python KeyError
    | IndexError                        // an escaped Python IndexError

  /** A user and the `is_vouched` flag of the user's profile. */
  datatype Account = Account(pk: nat, username: string, email: string, isVouched: bool)

  // ---------------------------------------------------------------------------------------------
  // ExternalAccountForm.clean

  /** An entry of `ExternalAccount.ACCOUNT_TYPES`: an optional URL template and an optional validator,
      which returns the normalised identifier or raises ValidationError with a message. */
  datatype AccountType = AccountType(url: Option<string>, validator: Option<string -> Result<string, string>>)

  /** `cleaned_data.get(key)` is present and truthy (a non-empty string). */
  predicate Filled(data: map<string, string>, key: string)
  {
    key in data && data[key] != ""
  }

  /** The URL branch is taken: the type has a non-empty URL template and the input starts with "http". */
  function UrlBranch(acct: AccountType, identifier: string): (b: bool)
    ensures b ==> |identifier| >= 4 && identifier[..4] == "http"
    ensures b ==> acct.url.Some? && |acct.url.value| > 0
  {
    acct.url.Some? && acct.url.value != "" && StartsWith(identifier, "http")
  }

  /** The identifier after the URL branch: the first group of the template's match, the input without
      its trailing slashes when the template does not match, the input itself outside the branch. */
  function UrlCandidate(acct: AccountType, identifier: string): (r: Result<string, FormError>)
    ensures !UrlBranch(acct, identifier) ==> r == Success(identifier)
    ensures UrlBranch(acct, identifier) && r.Success? ==>
              || r.value == RStrip(identifier, '/')
              || (r.value != "" && '\n' !in r.value && |r.value| <= |RStrip(identifier, '/')|)
    // no match: the slash-stripped input goes on; a match: its first group does
    ensures UrlBranch(acct, identifier) ==>
              var pattern, stripped := StripSlashes(Compile(acct.url.value)), RStrip(identifier, '/');
              && (MatchFrom(pattern, stripped).None? ==> r == Success(stripped))
              && (MatchFrom(pattern, stripped).Some? ==>
                    r == if MatchFrom(pattern, stripped).value == [] then Failure(IndexError)
                         else Success(MatchFrom(pattern, stripped).value[0]))
    // a template without `{identifier}` that matches leaves `groups()` empty
    ensures r.Failure? ==> r.error == IndexError && UrlBranch(acct, identifier)
  {
    if UrlBranch(acct, identifier) then
      var pattern := StripSlashes(Compile(acct.url.value));
      var stripped := RStrip(identifier, '/');
      match MatchFrom(pattern, stripped)
      case None => Success(stripped)
      case Some(groups) =>
        CapturesAreNonEmptyLines(pattern, stripped);
        if groups == [] then Failure(IndexError) else Success(groups[0])
    else Success(identifier)
  }

  /** The identifier `clean` writes back: the URL candidate, normalised by the type's validator
      when it has one; a validator's rejection becomes the form's ValidationError. */
  function CleanIdentifier(acct: AccountType, identifier: string): (r: Result<string, FormError>)
    ensures UrlCandidate(acct, identifier).Failure? ==> r == UrlCandidate(acct, identifier)
    ensures UrlCandidate(acct, identifier).Success? && acct.validator.None? ==> r == UrlCandidate(acct, identifier)
    ensures UrlCandidate(acct, identifier).Success? && acct.validator.Some? ==>
              var checked := acct.validator.value(UrlCandidate(acct, identifier).value);
              r == if checked.Success? then Success(checked.value) else Failure(ValidationError(checked.error))
  {
    match UrlCandidate(acct, identifier)
    case Failure(e) => Failure(e)
    case Success(candidate) =>
      if acct.validator.None? then Success(candidate)
      else match acct.validator.value(candidate)
        case Success(v) => Success(v)
        case Failure(message) => Failure(ValidationError(message))
  }

  /** Every group of a match is a non-empty piece of one line, no longer than the input. */
  lemma {:induction false} CapturesAreNonEmptyLines(p: seq<Token>, s: string)
    ensures MatchFrom(p, s).Some? ==>
              forall k :: 0 <= k < |MatchFrom(p, s).value| ==>
                var g := MatchFrom(p, s).value[k]; g != "" && '\n' !in g && |g| <= |s|
    decreases |p|, |s| + 1
  {
    if p != [] {
      match p[0]
      case Lit(c) => if s != [] { CapturesAreNonEmptyLines(p[1..], s[1..]); }
      case AnyChar => if s != [] { CapturesAreNonEmptyLines(p[1..], s[1..]); }
      case Group => GroupCapturesAreNonEmptyLines(p[1..], s, DotRun(s));
    }
  }

  lemma {:induction false} GroupCapturesAreNonEmptyLines(rest: seq<Token>, s: string, n: nat)
    requires n <= DotRun(s)
    ensures TryGroup(rest, s, n).Some? ==>
              forall k :: 0 <= k < |TryGroup(rest, s, n).value| ==>
                var g := TryGroup(rest, s, n).value[k]; g != "" && '\n' !in g && |g| <= |s|
    decreases |rest| + 1, n
  {
    if n > 0 {
      CapturesAreNonEmptyLines(rest, s[n..]);
      GroupCapturesAreNonEmptyLines(rest, s, n - 1);
      assert '\n' !in s[..n] by {
        assert s[..n] == s[..Find(s, '\n')][..n];
      }
    }
  }

  /**
   * For a template that is a prefix starting with "http" followed by `{identifier}` (and perhaps
   * slashes), an input that is the prefix followed by a non-empty one-line remainder (and perhaps
   * slashes) yields that remainder, which is then passed to the type's validator.
   */
  lemma PrefixTemplateIdentifier(acct: AccountType, prefix: string, slashes: string, input: string, rest: string, trailing: string)
    requires acct.url == Some(prefix + Placeholder + slashes)
    requires input == prefix + rest + trailing
    requires StartsWith(prefix, "http") && '{' !in prefix
    requires forall k :: 0 <= k < |slashes| ==> slashes[k] == '/'
    requires forall k :: 0 <= k < |trailing| ==> trailing[k] == '/'
    requires rest != [] && rest[|rest| - 1] != '/' && '\n' !in rest
    ensures UrlCandidate(acct, input) == Success(rest)
    ensures acct.validator.None? ==> CleanIdentifier(acct, input) == Success(rest)
    ensures acct.validator.Some? ==>
              CleanIdentifier(acct, input) == match acct.validator.value(rest)
                                             case Success(v) => Success(v)
                                             case Failure(message) => Failure(ValidationError(message))
  {
    assert StartsWith(input, "http") by {
      assert input[..4] == prefix[..4];
    }
    PrefixTemplateCaptures(acct.url.value, prefix, slashes, input, rest, trailing);
  }

  /** `ExternalAccountForm.clean`: extract the identifier from a pasted URL, normalise it with the
      type's validator, and store it back. */
  method CleanExternalAccount(cleanedData: map<string, string>, accountTypes: map<string, AccountType>)
    returns (r: Result<map<string, string>, FormError>)
    ensures !(Filled(cleanedData, "type") && Filled(cleanedData, "identifier")) ==> r == Success(cleanedData)
    ensures Filled(cleanedData, "type") && Filled(cleanedData, "identifier") && cleanedData["type"] !in accountTypes ==>
              r == Failure(KeyError(cleanedData["type"]))
    ensures Filled(cleanedData, "type") && Filled(cleanedData, "identifier") && cleanedData["type"] in accountTypes ==>
              match CleanIdentifier(accountTypes[cleanedData["type"]], cleanedData["identifier"])
              case Success(id) => r == Success(cleanedData["identifier" := id])
              case Failure(e) => r == Failure(e)
    // nothing but the identifier is touched
    ensures r.Success? ==> r.value.Keys == cleanedData.Keys
    ensures r.Success? ==> forall key :: key in cleanedData && key != "identifier" ==> r.value[key] == cleanedData[key]
  {
    if !("identifier" in cleanedData && cleanedData["identifier"] != ""
         && "type" in cleanedData && cleanedData["type"] != "") {
      return Success(cleanedData);
    }
    var identifier := cleanedData["identifier"];
    var accountType := cleanedData["type"];
    if accountType !in accountTypes {
      return Failure(KeyError(accountType));
    }
    var acct := accountTypes[accountType];
    var url := acct.url;
    if url.Some? && url.value != "" && StartsWith(identifier, "http") {
      var urlPattern := Compile(url.value);
      identifier := RStrip(identifier, '/');
      urlPattern := StripSlashes(urlPattern);
      var m := MatchFrom(urlPattern, identifier);
      if m.Some? {
        if m.value == [] {
          return Failure(IndexError);
        }
        identifier := m.value[0];
      }
    }
    assert UrlCandidate(acct, cleanedData["identifier"]) == Success(identifier);
    if acct.validator.Some? {
      var v := acct.validator.value(identifier);
      if v.Failure? {
        return Failure(ValidationError(v.error));
      }
      identifier := v.value;
    }
    r := Success(cleanedData["identifier" := identifier]);
  }

  // ---------------------------------------------------------------------------------------------
  // SearchForm.clean_limit

  /** The `limit` field itself: an optional integer between 1 and `ITEMS_PER_PAGE`; a value out of
      bounds is rejected with Django's `min_value` or `max_value` error. */
  function LimitField(submitted: Option<int>, itemsPerPage: int): (r: Result<Option<int>, FormError>)
    ensures r.Success? <==> submitted.None? || 1 <= submitted.value <= itemsPerPage
    ensures r.Success? ==> r.value == submitted
  {
    match submitted
    case None => Success(None)
    case Some(v) =>
      if v < 1 then Failure(ValidationError("min_value"))
      else if v > itemsPerPage then Failure(ValidationError("max_value"))
      else Success(Some(v))
  }

  /** `clean_limit`: `cleaned_data['limit'] or ITEMS_PER_PAGE`. */
  function CleanLimit(limit: Option<int>, itemsPerPage: int): (r: int)
    ensures limit.None? || limit == Some(0) ==> r == itemsPerPage
    ensures limit.Some? && limit.value != 0 ==> r == limit.value
  {
    if limit.None? || limit.value == 0 then itemsPerPage else limit.value
  }

  /** Whatever was submitted, a limit that gets through the field lies between 1 and the page size. */
  lemma CleanedLimitInRange(submitted: Option<int>, itemsPerPage: int)
    requires itemsPerPage >= 1
    requires LimitField(submitted, itemsPerPage).Success?
    ensures 1 <= CleanLimit(LimitField(submitted, itemsPerPage).value, itemsPerPage) <= itemsPerPage
  {
  }

  // ---------------------------------------------------------------------------------------------
  // filter_vouched

  const ChoiceOnlyVouched: string := "yes"
  const ChoiceOnlyUnvouched: string := "no"

  /** `qs.filter(is_vouched=vouched)`: the accounts with that flag, in their order. */
  function WithVouchedFlag(qs: seq<Account>, vouched: bool): (r: seq<Account>)
    ensures forall a :: a in r <==> a in qs && a.isVouched == vouched
    ensures multiset(r) <= multiset(qs)
    ensures forall a :: a in qs && a.isVouched == vouched ==> multiset(r)[a] == multiset(qs)[a]
  {
    if qs == [] then []
    else
      var rest := WithVouchedFlag(qs[1..], vouched);
      assert qs == [qs[0]] + qs[1..];
      if qs[0].isVouched == vouched then [qs[0]] + rest else rest
  }

  /** `filter_vouched(qs, choice)` */
  function FilterVouched(qs: seq<Account>, choice: string): (r: seq<Account>)
    ensures choice == ChoiceOnlyVouched ==> forall a :: a in r <==> a in qs && a.isVouched
    ensures choice == ChoiceOnlyUnvouched ==> forall a :: a in r <==> a in qs && !a.isVouched
    ensures choice != ChoiceOnlyVouched && choice != ChoiceOnlyUnvouched ==> r == qs
    ensures multiset(r) <= multiset(qs)
  {
    if choice == ChoiceOnlyVouched then WithVouchedFlag(qs, true)
    else if choice == ChoiceOnlyUnvouched then WithVouchedFlag(qs, false)
    else qs
  }

  /** The vouched and the unvouched selections together are the whole input. */
  lemma {:induction false} VouchedFiltersPartition(qs: seq<Account>)
    ensures multiset(FilterVouched(qs, ChoiceOnlyVouched)) + multiset(FilterVouched(qs, ChoiceOnlyUnvouched))
            == multiset(qs)
    ensures |FilterVouched(qs, ChoiceOnlyVouched)| + |FilterVouched(qs, ChoiceOnlyUnvouched)| == |qs|
  {
    FlagFiltersPartition(qs);
  }

  lemma {:induction false} FlagFiltersPartition(qs: seq<Account>)
    ensures multiset(WithVouchedFlag(qs, true)) + multiset(WithVouchedFlag(qs, false)) == multiset(qs)
  {
    if qs != [] {
      FlagFiltersPartition(qs[1..]);
      assert qs == [qs[0]] + qs[1..];
    }
  }

  // ---------------------------------------------------------------------------------------------
  // UserForm.clean_username

  const UsernameInUse: string := "This username is in use. Please try another."
  const UsernameBadCharacters: string := "Please use only alphanumeric characters"
  const UsernameNotAllowed: string := "This username is not allowed, please choose another."

  /** A character of the class `[\w.@+-]`, `\w` being ASCII letters, digits and `_`. */
  predicate UsernameChar(c: char)
  {
    ('a' <= c <= 'z') || ('A' <= c <= 'Z') || ('0' <= c <= '9') || c == '_'
    || c == '.' || c == '@' || c == '+' || c == '-'
  }

  /** Length of the run of class characters at the start of `s`. */
  function UsernameRun(s: string): (n: nat)
    ensures n <= |s|
    ensures forall k :: 0 <= k < n ==> UsernameChar(s[k])
    ensures n < |s| ==> !UsernameChar(s[n])
  {
    if s == [] || !UsernameChar(s[0]) then 0 else 1 + UsernameRun(s[1..])
  }

  /** `re.match(r'^[\w.@+-]+$', s)`: one or more class characters, then the end of the string or a
      final newline (Python's `$` matches before a trailing newline). So the pattern accepts exactly
      the non-empty strings of class characters, with or without one newline at the end. */
  function UsernamePatternMatches(s: string): (b: bool)
    ensures b <==>
              || (s != "" && forall k :: 0 <= k < |s| ==> UsernameChar(s[k]))
              || (|s| >= 2 && s[|s| - 1] == '\n' && forall k :: 0 <= k < |s| - 1 ==> UsernameChar(s[k]))
  {
    assert !UsernameChar('\n');
    var n := UsernameRun(s);
    n >= 1 && (n == |s| || (n == |s| - 1 && s[n] == '\n'))
  }

  /** Some account other than the instance's own holds the name (`exclude(pk=None)` excludes nobody). */
  function UsernameTaken(users: seq<Account>, instanceId: Option<nat>, username: string): (b: bool)
    ensures b ==> exists a :: a in users && a.username == username
    ensures instanceId.None? ==> (b <==> exists a :: a in users && a.username == username)
  {
    exists k :: 0 <= k < |users| && users[k].username == username && Some(users[k].pk) != instanceId
  }

  /** `clean_username`. `validateUsername` is the site's blacklist check. */
  function CleanUsername(users: seq<Account>, instanceId: Option<nat>, instanceUsername: string,
                         username: string, validateUsername: string -> bool): (r: Result<string, FormError>)
    ensures username == "" ==> r == Success(instanceUsername)
    ensures username != "" && r.Success? ==>
              && r.value == username
              && !UsernameTaken(users, instanceId, username)
              && UsernamePatternMatches(username)
              && validateUsername(username)
    ensures (username != "" && !UsernameTaken(users, instanceId, username)
             && UsernamePatternMatches(username) && validateUsername(username)) ==> r == Success(username)
    // the checks run in order: name taken, then characters, then the blacklist
    ensures username != "" && UsernameTaken(users, instanceId, username) ==>
              r == Failure(ValidationError(UsernameInUse))
    ensures username != "" && !UsernameTaken(users, instanceId, username) && !UsernamePatternMatches(username) ==>
              r == Failure(ValidationError(UsernameBadCharacters))
    ensures (username != "" && !UsernameTaken(users, instanceId, username) && UsernamePatternMatches(username)
             && !validateUsername(username)) ==> r == Failure(ValidationError(UsernameNotAllowed))
  {
    if username == "" then Success(instanceUsername)
    else if UsernameTaken(users, instanceId, username) then Failure(ValidationError(UsernameInUse))
    else if !UsernamePatternMatches(username) then Failure(ValidationError(UsernameBadCharacters))
    else if !validateUsername(username) then Failure(ValidationError(UsernameNotAllowed))
    else Success(username)
  }

  /** An accepted non-blank name is held by nobody else, so giving it to the instance keeps
      usernames unique across the table. */
  lemma AcceptedUsernameKeepsNamesUnique(users: seq<Account>, k: nat, username: string, validateUsername: string -> bool)
    requires k < |users|
    requires UniqueUsernames(users)
    requires username != ""
    requires CleanUsername(users, Some(users[k].pk), users[k].username, username, validateUsername).Success?
    requires forall i :: 0 <= i < |users| && users[i].pk == users[k].pk ==> i == k
    ensures UniqueUsernames(users[k := users[k].(username := username)])
  {
    var updated := users[k := users[k].(username := username)];
    forall i, j | 0 <= i < |updated| && 0 <= j < |updated| && updated[i].username == updated[j].username
      ensures i == j
    {
      if i != j && (i == k || j == k) {
        assert false;
      }
    }
  }

  /** No two accounts share a username. */
  predicate UniqueUsernames(users: seq<Account>)
  {
    forall i, j :: 0 <= i < |users| && 0 <= j < |users| && users[i].username == users[j].username ==> i == j
  }

  // ---------------------------------------------------------------------------------------------
  // EmailForm.clean_email, EmailForm.email_changed

  const EmailInUse: string := "Email is currently associated with another user."

  /** Some account other than `userId` holds the address. */
  function EmailHeldByOther(users: seq<Account>, userId: nat, email: string): (b: bool)
    ensures b <==> exists a :: a in HoldersOf(users, email) && a.pk != userId
  {
    exists k :: 0 <= k < |users| && users[k].email == email && users[k].pk != userId
  }

  /** `clean_email`, `userId` being `initial['user_id']`. */
  function CleanEmail(users: seq<Account>, userId: nat, email: string): (r: Result<string, FormError>)
    ensures r.Success? <==> forall k :: 0 <= k < |users| && users[k].email == email ==> users[k].pk == userId
    ensures r.Success? ==> r.value == email
    ensures r.Failure? ==> r.error == ValidationError(EmailInUse)
  {
    if EmailHeldByOther(users, userId, email) then Failure(ValidationError(EmailInUse)) else Success(email)
  }

  /** `email_changed`: the cleaned address differs from the initial one. */
  function EmailChanged(cleaned: string, initial: string): (changed: bool)
    ensures changed <==> cleaned != initial
  {
    cleaned != initial
  }

  /** Every account with key `userId` gets address `email`. */
  function WithEmail(users: seq<Account>, userId: nat, email: string): (r: seq<Account>)
    ensures |r| == |users|
    ensures forall k :: 0 <= k < |users| ==> r[k].pk == users[k].pk && r[k].isVouched == users[k].isVouched
    ensures forall k :: 0 <= k < |users| ==> r[k].email == if users[k].pk == userId then email else users[k].email
  {
    seq(|users|, k requires 0 <= k < |users| =>
      if users[k].pk == userId then users[k].(email := email) else users[k])
  }

  /** At most one account (by key) holds each address. */
  predicate EmailsHeldOnce(users: seq<Account>)
  {
    forall i, j :: 0 <= i < |users| && 0 <= j < |users| && users[i].email == users[j].email ==> users[i].pk == users[j].pk
  }

  /** Storing an address that `clean_email` accepted keeps every address held by one account only. */
  lemma CleanEmailKeepsAddressesHeldOnce(users: seq<Account>, userId: nat, email: string)
    requires EmailsHeldOnce(users)
    requires CleanEmail(users, userId, email).Success?
    ensures EmailsHeldOnce(WithEmail(users, userId, email))
  {
    var updated := WithEmail(users, userId, email);
    forall i, j | 0 <= i < |updated| && 0 <= j < |updated| && updated[i].email == updated[j].email
      ensures updated[i].pk == updated[j].pk
    {
      if users[i].pk == userId && users[j].pk != userId {
        assert false;
      } else if users[j].pk == userId && users[i].pk != userId {
        assert false;
      }
    }
  }

  /** Where addresses are held once, keeping one's own address is accepted and is no change. */
  lemma KeepingOwnEmailIsAccepted(users: seq<Account>, k: nat, initial: string, cleaned: string)
    requires EmailsHeldOnce(users)
    requires k < |users| && users[k].email == initial
    requires !EmailChanged(cleaned, initial)
    ensures CleanEmail(users, users[k].pk, cleaned) == Success(cleaned)
  {
    assert forall i :: 0 <= i < |users| && users[i].email == cleaned ==> users[i].pk == users[k].pk;
  }

  // ---------------------------------------------------------------------------------------------
  // InviteForm.clean_recipient

  const RecipientVouched: string := "You cannot invite someone who has already been vouched."

  /** The accounts holding an address, in table order (`User.objects.filter(email=...)`). */
  function HoldersOf(users: seq<Account>, email: string): (r: seq<Account>)
    ensures forall a :: a in r <==> a in users && a.email == email
  {
    if users == [] then []
    else
      var rest := HoldersOf(users[1..], email);
      assert users == [users[0]] + users[1..];
      if users[0].email == email then [users[0]] + rest else rest
  }

  /** `clean_recipient`: nobody vouched may be invited. */
  function CleanRecipient(users: seq<Account>, recipient: string): (r: Result<string, FormError>)
    ensures r.Failure? <==> exists a :: a in users && a.email == recipient && a.isVouched
    ensures r.Success? ==> r.value == recipient
    ensures r.Failure? ==> r.error == ValidationError(RecipientVouched)
  {
    if exists a :: a in users && a.email == recipient && a.isVouched
    then Failure(ValidationError(RecipientVouched))
    else Success(recipient)
  }

  /** The recipient check agrees with the directory's own "vouched only" filter over the address's holders. */
  lemma RecipientRejectedIffVouchedHolder(users: seq<Account>, recipient: string)
    ensures CleanRecipient(users, recipient).Failure? <==> FilterVouched(HoldersOf(users, recipient), ChoiceOnlyVouched) != []
  {
    var vouched := FilterVouched(HoldersOf(users, recipient), ChoiceOnlyVouched);
    if vouched != [] {
      assert vouched[0] in vouched;
    }
  }
}
