# Mozillians: vouch backfill and phonebook form rules

Mozillians is a community directory. In it, members vouch for each other, and a vouched member
can vouch for others once they have received enough vouches. This project models two pieces of
its business logic in Dafny and proves properties of them.

- **Vouch backfill** (`mozillians/users/migrations/0038_auto_20180815_0108.py`, module
  `VouchBackfill`). The migration runs once over every profile. If the profile owns an
  identity-provider (IdP) email whose domain is in `AUTO_VOUCH_DOMAINS`, and it has no automatic
  vouch with reason `AUTO_VOUCH_REASON` yet, the migration adds one system vouch: no voucher, the
  current time, that reason, `autovouch` set. It then recomputes the profile's `is_vouched` and
  `can_vouch` flags from its vouch count and `CAN_VOUCH_THRESHOLD`.
  - The profile table is an `array<Profile>`. `AddMissingEmployeeVouches` rewrites its rows in
    place, in a `while` loop whose body is `BackfillOne`.
  - The result is proved equal to the specification function `Backfill`. The lemmas about
    `Backfill` state what the migration promises: coverage, at most one vouch added per profile,
    idempotence, rows left alone, and flag consistency.
  - An email without `@` makes `email.split('@')[1]` raise IndexError. That is modelled as the
    outcome `IndexError(at)`.
- **Phonebook form rules** (`mozillians/phonebook/forms.py`, modules `PhonebookForms` and
  `UrlPattern`). Each clean function either returns a cleaned value or rejects the input:
  - `ExternalAccountForm.clean` (a method, as the source updates its local identifier step by
    step). The URL template is compiled to a small backtracking matcher with Python's greedy
    `(.+)` and `.`.
  - `SearchForm.clean_limit`, `filter_vouched`, `UserForm.clean_username`,
    `EmailForm.clean_email` / `email_changed`, `InviteForm.clean_recipient` (functions over a user
    table).
- `PyText` models the Python string methods used: `split`, `rstrip`, `startswith`.
  `Wrappers` holds `Option` and `Result`.

The following are parameters of the model:
- the settings `AUTO_VOUCH_DOMAINS`, `AUTO_VOUCH_REASON`, `CAN_VOUCH_THRESHOLD` and `ITEMS_PER_PAGE`;
- the value of `now()`;
- the contents of `ACCOUNT_TYPES`, with each type's validator as a function value;
- the blacklist check `validate_username`, as a function value.

## Model

| member | source | states |
|---|---|---|
| VouchBackfill.EmailDomain | mozillians/users/migrations/0038_auto_20180815_0108.py:18 | `email.split('@')[1]` exists exactly when the address contains `@`, and holds no `@` |
| VouchBackfill.DomainIsSecondSegment | mozillians/users/migrations/0038_auto_20180815_0108.py:18 | the domain is the text between the first `@` and the next `@` or the end |
| VouchBackfill.EmailsOf | mozillians/users/migrations/0038_auto_20180815_0108.py:15 | the profile's email list holds exactly the addresses of the IdP rows that point at that profile |
| VouchBackfill.Malformed | mozillians/users/migrations/0038_auto_20180815_0108.py:17-18 | evaluating the domain list raises IndexError exactly when some email has no second `split('@')` piece |
| VouchBackfill.EmailExists | mozillians/users/migrations/0038_auto_20180815_0108.py:17-18 | `email_exists` needs at least one email and a non-empty allow-list |
| VouchBackfill.EmailExistsMeaning | mozillians/users/migrations/0038_auto_20180815_0108.py:17-18 | `email_exists` holds exactly when some email has an `@` and the text between its first `@` and the next one (or the end) is an allow-listed domain |
| VouchBackfill.HasAutoVouch | mozillians/users/migrations/0038_auto_20180815_0108.py:19-20 | the `filter(description=reason, autovouch=True).exists()` test: some vouch row has the reason and the flag, whatever its voucher and date; it needs a non-empty vouch list |
| VouchBackfill.SystemVouch | mozillians/users/migrations/0038_auto_20180815_0108.py:22-27 | the created vouch has no voucher, `autovouch` set, the sentinel reason and the run's timestamp |
| VouchBackfill.FlagsConsistent | mozillians/users/migrations/0038_auto_20180815_0108.py:29-33 | with flags computed from the count, `is_vouched` means some vouch exists, a profile that can vouch is vouched when the threshold is positive, and every profile can vouch when it is not |
| VouchBackfill.BackfillProfile | mozillians/users/migrations/0038_auto_20180815_0108.py:15-33 | one profile: fails exactly when an email lacks `@`; keeps existing vouches as a prefix; adds at most one vouch, and one exactly when an allow-listed email exists and no autovouch does; the added vouch is the system vouch; the new flags are consistent and `is_vouched` is set; otherwise the row is unchanged; afterwards an allow-listed profile holds the autovouch |
| VouchBackfill.BackfillProfileIdempotent | mozillians/users/migrations/0038_auto_20180815_0108.py:19-20 | a second pass over a profile changes nothing, whatever the timestamp |
| VouchBackfill.FirstMalformed | mozillians/users/migrations/0038_auto_20180815_0108.py:14-18 | the run stops at the first profile, in table order, owning an email without `@` |
| VouchBackfill.FirstMalformedByKeys | mozillians/users/migrations/0038_auto_20180815_0108.py:14-18 | where the run stops depends only on the profiles' keys and the IdP table |
| VouchBackfill.RunOutcome | mozillians/users/migrations/0038_auto_20180815_0108.py:14-18 | IndexError at row i exactly when row i has a malformed email and no earlier row has one; completion exactly when no row has one |
| VouchBackfill.Backfill | mozillians/users/migrations/0038_auto_20180815_0108.py:14-33 | the table keeps its length and every row keeps its key |
| VouchBackfill.CompletedRunCoversAllowListed | mozillians/users/migrations/0038_auto_20180815_0108.py:15-27 | after a completed run every profile with an allow-listed IdP email holds the autovouch with the sentinel reason |
| VouchBackfill.BackfillRowChanges | mozillians/users/migrations/0038_auto_20180815_0108.py:19-33 | each row is unchanged, or gains exactly the system vouch (it was eligible and had no autovouch) and then has consistent flags with `is_vouched` set |
| VouchBackfill.BackfillLeavesOthersAlone | mozillians/users/migrations/0038_auto_20180815_0108.py:17-20 | profiles without an allow-listed email, and profiles that already hold the autovouch, keep vouches and flags exactly, even inconsistent flags |
| VouchBackfill.BackfillIdempotent | mozillians/users/migrations/0038_auto_20180815_0108.py:19-20 | a second run, after a completed run or one stopped by IndexError, stops at the same row (or completes) and leaves the table unchanged |
| VouchBackfill.BackfillKeepsFlagsConsistent | mozillians/users/migrations/0038_auto_20180815_0108.py:29-33 | if every row's flags agree with its vouch count before the run, they do after it |
| VouchBackfill.BackfillOne | mozillians/users/migrations/0038_auto_20180815_0108.py:15-33 | one iteration, in place: IndexError exactly at the stopping row, leaving the table untouched; otherwise row `i` becomes its backfilled row and the rows after it stay as they were |
| VouchBackfill.AddMissingEmployeeVouches | mozillians/users/migrations/0038_auto_20180815_0108.py:10-33 | the in-place loop ends with the outcome `RunOutcome` and leaves the table equal to `Backfill` of the old table |
| VouchBackfill.Backwards | mozillians/users/migrations/0038_auto_20180815_0108.py:36-37 | the reverse migration leaves the table unchanged |
| PyText.SplitAtFirst | mozillians/users/migrations/0038_auto_20180815_0108.py:18 | `split` yields the text up to the first separator, then the split of what follows it |
| PyText.Split | mozillians/users/migrations/0038_auto_20180815_0108.py:18 | `split('@')` gives one more piece than there are separators, and no piece holds the separator |
| PyText.RStrip | mozillians/phonebook/forms.py:47 | `rstrip('/')` keeps a prefix that does not end in `/`, and drops only `/` characters |
| PyText.StartsWith | mozillians/phonebook/forms.py:45 | `startswith` holds exactly when the input is at least as long as the prefix and agrees with it character by character |
| UrlPattern.Compile | mozillians/phonebook/forms.py:46 | a template becomes a pattern no longer than itself; without `{` it is one token per character, `.` the any-character class and every other character a literal |
| UrlPattern.StripSlashes | mozillians/phonebook/forms.py:48 | `rstrip('/')` on the pattern: keeps a prefix that does not end in a literal slash, and drops only literal slashes |
| UrlPattern.MatchFrom | mozillians/phonebook/forms.py:49-51 | `re.match` anchored at the start: a successful match has one capture per `(.+)` group of the pattern |
| UrlPattern.TryGroup | mozillians/phonebook/forms.py:49-51 | a `(.+)` group captures a non-empty prefix of the input no longer than the characters it may span, and the match has one more capture than the rest of the pattern has groups |
| UrlPattern.TryGroupIsGreedy | mozillians/phonebook/forms.py:49-51 | greedy backtracking: the group is the longest prefix after which the rest of the pattern matches, with that match's captures after it; no prefix works exactly when there is no match |
| UrlPattern.PrefixTemplatePattern | mozillians/phonebook/forms.py:46-48 | a template made of a prefix, `{identifier}` and trailing slashes becomes the prefix's pattern followed by one group once the slashes are stripped |
| UrlPattern.PrefixTemplateCaptures | mozillians/phonebook/forms.py:46-51 | for such a template, an input made of the prefix, a non-empty one-line remainder and slashes captures exactly the remainder |
| PhonebookForms.UrlBranch | mozillians/phonebook/forms.py:44-45 | the URL branch is taken only for an identifier starting with `http` and a type with a non-empty URL template |
| PhonebookForms.UrlCandidate | mozillians/phonebook/forms.py:44-51 | outside the URL branch the identifier passes through unchanged; inside it, when the template's pattern does not match the slash-stripped input, that input goes on, and when it matches, the first group goes on (IndexError if the pattern has no group); a group is a non-empty one-line string no longer than the input |
| PhonebookForms.CleanIdentifier | mozillians/phonebook/forms.py:44-55 | the URL candidate is passed to the type's validator when it has one, whose result goes on and whose rejection becomes a ValidationError; without a validator the candidate goes on; an IndexError of the URL branch is passed through |
| PhonebookForms.CapturesAreNonEmptyLines | mozillians/phonebook/forms.py:49-51 | every capture of a match is non-empty, holds no newline and is no longer than the input |
| PhonebookForms.PrefixTemplateIdentifier | mozillians/phonebook/forms.py:44-55 | for an `http` prefix template, the pasted URL's remainder is extracted and handed to the type's validator, whose result or ValidationError is the outcome |
| PhonebookForms.CleanExternalAccount | mozillians/phonebook/forms.py:36-59 | data lacking a type or an identifier is returned unchanged; an unknown type raises KeyError; otherwise the identifier is replaced by the extracted, validated one, or the error is returned; no other key is touched |
| PhonebookForms.LimitField | mozillians/phonebook/forms.py:84-86 | the field accepts exactly an absent value or one between 1 and `ITEMS_PER_PAGE`, and passes it through |
| PhonebookForms.CleanLimit | mozillians/phonebook/forms.py:90-92 | an absent or zero limit becomes `ITEMS_PER_PAGE`; any other value is kept |
| PhonebookForms.CleanedLimitInRange | mozillians/phonebook/forms.py:84-92 | whatever was submitted, a limit that passes the field is cleaned to a value in `[1, ITEMS_PER_PAGE]` |
| PhonebookForms.WithVouchedFlag | mozillians/phonebook/forms.py:97-99 | `filter(is_vouched=v)` keeps exactly the accounts with that flag, with their multiplicities, and nothing else |
| PhonebookForms.FilterVouched | mozillians/phonebook/forms.py:95-100 | `'yes'` keeps exactly the vouched, `'no'` exactly the unvouched, any other choice returns the input; the result is always a sub-multiset of the input |
| PhonebookForms.VouchedFiltersPartition | mozillians/phonebook/forms.py:95-100 | the `'yes'` and `'no'` selections together are the whole input, counted with multiplicity |
| PhonebookForms.UsernameRun | mozillians/phonebook/forms.py:154 | the greedy run of `[\w.@+-]` characters at the start of the input, and the first character after it is outside the class |
| PhonebookForms.UsernamePatternMatches | mozillians/phonebook/forms.py:154 | `^[\w.@+-]+$` accepts exactly the non-empty strings of class characters, with or without one final newline |
| PhonebookForms.UsernameTaken | mozillians/phonebook/forms.py:148-149 | the name is taken only if some account holds it; for an unsaved instance (`exclude(pk=None)`) exactly when some account holds it |
| PhonebookForms.CleanUsername | mozillians/phonebook/forms.py:140-161 | a blank name returns the current username; otherwise the checks run in order (taken by another user, character set, blacklist), each with its own message; a name is accepted exactly when it passes all three |
| PhonebookForms.AcceptedUsernameKeepsNamesUnique | mozillians/phonebook/forms.py:145-151 | storing an accepted non-blank name keeps usernames unique across the table |
| PhonebookForms.EmailHeldByOther | mozillians/phonebook/forms.py:297 | `exclude(pk=user_id).filter(email=...).exists()`: some holder of the address, as `filter(email=...)` finds them, has another key |
| PhonebookForms.CleanEmail | mozillians/phonebook/forms.py:295-299 | an address is accepted exactly when no account other than `initial['user_id']` holds it, and is returned unchanged |
| PhonebookForms.EmailChanged | mozillians/phonebook/forms.py:301-302 | true exactly when the cleaned address differs from the initial one |
| PhonebookForms.CleanEmailKeepsAddressesHeldOnce | mozillians/phonebook/forms.py:295-299 | storing an accepted address keeps every address held by a single account |
| PhonebookForms.KeepingOwnEmailIsAccepted | mozillians/phonebook/forms.py:295-302 | where each address is held once, submitting one's own unchanged address is accepted |
| PhonebookForms.HoldersOf | mozillians/phonebook/forms.py:336 | `User.objects.filter(email=...)` keeps exactly the accounts holding that address |
| PhonebookForms.CleanRecipient | mozillians/phonebook/forms.py:334-340 | a recipient is rejected exactly when a vouched account holds the address, and otherwise returned unchanged |
| PhonebookForms.RecipientRejectedIffVouchedHolder | mozillians/phonebook/forms.py:334-340 | the recipient check rejects exactly when the `'yes'` filter of `filter_vouched` (forms.py:95-100) over the address's holders is non-empty |

## Left out

- `BasicInformationForm.clean_photo` (forms.py:175-194): it decodes images, probes EXIF data and re-encodes JPEGs through PIL, all foreign library behaviour.
- The URL template is not read as full Python regex syntax. `{identifier}` becomes the greedy group `(.+)` and `.` matches any character but a newline, as in Python. Every other character, including `?`, `+`, `(`, `[`, `\` and `^`, is matched literally.
- `ACCOUNT_TYPES`, the per-type validators, `validate_username` and `get_languages_for_locale` are not part of this model. The first three are parameters (a map and function values); the last is unused by the modelled rules.
- The username race between concurrent requests (forms.py:146-147) concerns concurrency and is not modelled.
- Database lookups compare strings exactly. A case-insensitive database collation is not modelled.
- Django's field cleaning before the `clean_*` methods is not modelled: whitespace stripping, `required` checks, email syntax. The one exception is the bounds of the `limit` field (`LimitField`).
- `LimitField`: a rejection carries Django's error code (`min_value`, `max_value`) rather than the formatted message.
- Widgets, autocomplete, captcha, translation of messages, formset factories, `Meta` field lists and the timezone choice inserted by `SearchFilter.__init__` are framework configuration.
- `AddMissingEmployeeVouches`: every vouch created in one run gets the same timestamp, because `now()` is modelled as one parameter of the run. The source calls `now()` once per created vouch.
- `AddMissingEmployeeVouches`: when IndexError is raised, the rows already handled keep their updates. A rollback by the database transaction around the migration is not modelled.
- The migration reads `set(emails)`. Its iteration order is not modelled, because the outcome does not depend on it: evaluating the list raises IndexError on any address without `@`, whatever its position.
- ORM and queryset mechanics, such as rows fetched lazily, are not modelled. The profile and IdP tables are plain sequences, read in table order.
