# eShop telemetry redaction, entity identity and basket state — a Dafny model

This project models three parts of the eShop reference application and proves properties of the model.

**Telemetry redaction** (`src/eShop.ServiceDefaults/Processors`). Before spans and log records are exported, sensitive values in them are masked.
- A fixed policy of eight field-name patterns says how many trailing characters of a matching value become `*`. `DataMasking.Mask` masks one named value.
- The span hook (`DataMaskingActivityProcessor.OnEnd`) masks every string tag of a finished span in place. A tag whose value is wrapped in braces is a JSON object whose string fields are masked under their own names.
- The log hook (`DataMaskingLogsProcessor.OnEnd`) masks the first sensitive `name: value` fragment of the rendered message.

**The ordering domain's `Entity` base class** (`src/Ordering.Domain/SeedWork/Entity.cs`). It covers:
- identity, with the transient rule;
- `==` and `!=`;
- a hash code cached at the first request;
- the domain-event list;
- the redaction of the user's and card holder's names from the event content recorded on the current span.

**The web front end's `BasketState`** (`src/WebApp/Services/BasketState.cs`). It covers:
- the list updates behind "add one" and "set quantity";
- the memoised basket;
- the set of change subscriptions notified after every pushed update.

Files:
- `common.dfy`: `Option` (C# null), the `int32` range.
- `data_masking.dfy` (module `DataMasking`): the policy, `Mask`, `MaskPairInString`.
- `telemetry.dfy` (module `Telemetry`): the span (`Activity`, its tags, `SetTag`) and the log record.
- `activity_processor.dfy`, `logs_processor.dfy`: the two hooks.
- `entity.dfy` (module `SeedWork`), `basket_state.dfy` (module `WebApp`).

## Modelling decisions

- **Case-insensitive matching.** `OrdinalIgnoreCase` is modelled as ASCII lower-casing; every policy pattern is ASCII.
- **Policy order.** The policy is an ordered sequence in declaration order. `FirstOrDefault` over the keys of a `Dictionary` that is only ever added to enumerates them in insertion order, so the first match is the first entry in the sequence.
- **`MaskPairInString` is defined by the model.** `DataMaskingLogsProcessor.cs:21` calls `DataMasking.MaskPairInString`, but `DataMasking.cs` does not define it. The model's definition works like this:
  - A fragment starts where a policy pattern occurs, ignoring case.
  - Its name runs from there to a colon, with no white space, `,` or `}` in between.
  - Spaces after the colon are skipped.
  - The value runs up to the next `,`, `}`, white space or the end of the text, and must not be empty.
  - The first such fragment's value is replaced by `Mask(name, value)`. The rest of the text is kept verbatim.
  - The result is `None` when the text holds no such fragment.
  - The name used for `Mask` is the text from the pattern's start to the colon. It matches the same policy entry as the pattern itself unless the name holds a pattern listed earlier further on.
  - In the worked example `userId: abcdefghijklmnopqrstuvwxyz0123456789AB`, the value is 38 characters and the message 46. The result keeps 5 visible characters of the value and 33 `*`.
- **Span tags and `SetTag`.** A span's tags are a sequence of (name, nullable string) pairs. `Activity.SetTag(key, value)` with a non-null value is modelled as in the tracing runtime: the first tag with that name takes the value, and a new tag is appended when no tag has that name.
  - Consequence: when two tags share a name, the hook writes the second one's masked value into the first, and the second keeps its raw value (`DataMaskingActivityProcessor.DuplicateNameExample`).
  - When names are distinct, every tag is rewritten in its own place (`DataMaskingActivityProcessor.RedactedDistinct`).
- **JSON.** Parsing and serialising are function parameters.
  - The parsed dictionary is a sequence of distinct names in enumeration order. Each value is a JSON string or some other JSON value.
  - The inner loop writes `dictionary[key] = masked` for the entry being visited. This is modelled as overwriting that entry's value, which does not disturb the enumeration (an overwrite of an existing key is allowed during enumeration in .NET Core 3.0 and later).
- **Entity.** `GetType()` and `base.GetHashCode()` are fixed fields of the entity (`runtimeType`, `identityHash`).
  - `Id ^ 31` on a C# `int` is written arithmetically as flipping the low five bits of the two's complement.
  - The cached hash is not refreshed when the identifier changes, so equal entities need not hash alike. An entity hashed at Id 5 keeps answering 26 after taking Id 6, while another entity with Id 6, equal to it, answers 25 (`SeedWork.HashBreaksAfterIdChange`). `SeedWork.EqualEntitiesHashAlike` therefore assumes each cache holds the hash of the current identifier.
  - The span started by `AddDomainEvent` is passed in as a nullable `Activity` (null when it is not recorded).
  - A domain event is either an `OrderStartedDomainEvent`, with the user's and card holder's names and its `ToString()` text, or another event with its type name and text. Events compare by value in the model. The event types are not part of this model; `List.Remove` uses their `Equals`, which for a plain class is reference identity (see "Left out").
- **Basket state.** The basket service is an object holding the stored lines; awaited tasks are modelled by the values they resolve to.
  - A basket line keeps product and quantity only.
  - `existing.Quantity + 1` wraps at the largest `int`, as unchecked C# arithmetic does.
  - Each call to `NotifyChangeSubscribersAsync` is logged in `notified` with the set of subscriptions whose callbacks it invokes.
- **Basket deletion.** `DeleteBasketAsync` does not drop the memoised basket. After a fetch, a delete and another fetch, the old lines are still answered (`WebApp.FetchAfterDelete`).

## Model

| member | source | states |
|---|---|---|
| DataMasking.PatternsAreLetters | src/eShop.ServiceDefaults/Processors/DataMasking.cs:5-16 | every policy pattern is a non-empty run of ASCII letters |
| DataMasking.ContainsIgnoreCase | src/eShop.ServiceDefaults/Processors/DataMasking.cs:19 | the name holds the pattern at some position, comparing ASCII-folded characters |
| DataMasking.EmptyKeyContained | src/eShop.ServiceDefaults/Processors/DataMasking.cs:19 | every name contains the empty pattern, as `String.Contains` answers |
| DataMasking.LongKeyNotContained | src/eShop.ServiceDefaults/Processors/DataMasking.cs:19 | a pattern longer than the name is never contained in it |
| DataMasking.ContainsAt | src/eShop.ServiceDefaults/Processors/DataMasking.cs:19 | an exact occurrence of a pattern is a case-insensitive occurrence |
| DataMasking.MissingCharNotContained | src/eShop.ServiceDefaults/Processors/DataMasking.cs:19 | a pattern with a (folded) character the name lacks is not contained in it |
| DataMasking.ContainsIgnoresCase | src/eShop.ServiceDefaults/Processors/DataMasking.cs:19 | case-insensitive containment depends only on the folded name |
| DataMasking.FirstMatchFrom | src/eShop.ServiceDefaults/Processors/DataMasking.cs:19 | the answer is the first entry from `i` on whose pattern the name contains, and no earlier one matches |
| DataMasking.FirstMatch | src/eShop.ServiceDefaults/Processors/DataMasking.cs:19 | the first policy entry whose pattern the name contains, ignoring case; `None` exactly when no pattern is contained |
| DataMasking.Mask | src/eShop.ServiceDefaults/Processors/DataMasking.cs:18-30 | "no match" exactly when the value is null or no pattern matches; otherwise same length, the first `len - min(limit, len)` characters kept, the last `min(limit, len)` all `*`, with the limit of the first matching entry |
| DataMasking.MaskShortValue | src/eShop.ServiceDefaults/Processors/DataMasking.cs:23-25 | a value no longer than the limit is entirely starred |
| DataMasking.MaskEmptyValue | src/eShop.ServiceDefaults/Processors/DataMasking.cs:23-25 | under a matching name the empty value masks to the empty string |
| DataMasking.MaskIdempotent | src/eShop.ServiceDefaults/Processors/DataMasking.cs:23-27 | masking an already masked value under the same name returns it unchanged |
| DataMasking.MaskIgnoresCase | src/eShop.ServiceDefaults/Processors/DataMasking.cs:19 | two names equal up to ASCII case select the same entry and mask alike |
| DataMasking.MaskUserIdField | src/eShop.ServiceDefaults/Processors/DataMasking.cs:19-27 | any name containing `userId` in any casing selects the first entry; the result has the value's length and its last `min(33, len)` characters are `*` |
| DataMasking.MaskUserIdKeepsPrefix | src/eShop.ServiceDefaults/Processors/DataMasking.cs:23-27 | under `userId` a value of `k + 33` characters keeps exactly its first `k` |
| DataMasking.MaskCardNumberExample | src/eShop.ServiceDefaults/Processors/DataMasking.cs:18-30 | the test card `1111222233334444` under `CardNumber` becomes `111` and 13 `*` |
| DataMasking.CardNumberMatch | src/eShop.ServiceDefaults/Processors/DataMasking.cs:8-15 | `CardNumber` holds none of the six patterns listed before its own entry, so it selects entry 6 |
| DataMasking.MaskPrecedenceExample | src/eShop.ServiceDefaults/Processors/DataMasking.cs:19 | first entry wins: `CardNumber.userId` uses the `userId` limit 33, so the whole 16-digit card is starred |
| DataMasking.SkipWhile | src/eShop.ServiceDefaults/Processors/DataMaskingLogsProcessor.cs:21 | the first position at or after `i` whose character fails the test, or the end |
| DataMasking.SkipWhileStopsAt | src/eShop.ServiceDefaults/Processors/DataMaskingLogsProcessor.cs:21 | that position is unique |
| DataMasking.FragmentAt | src/eShop.ServiceDefaults/Processors/DataMaskingLogsProcessor.cs:21 | a fragment found at `p` has a non-empty name of name characters that the policy matches, then a colon, then only spaces, then a non-empty run of value characters ending at a `,`, `}`, white space or the end of the text (that it is found only where a policy pattern starts is `FragmentAtExactly`) |
| DataMasking.FragmentAtComplete | src/eShop.ServiceDefaults/Processors/DataMaskingLogsProcessor.cs:21 | conversely, runs laid out that way from a position where a policy pattern starts are exactly the fragment found there |
| DataMasking.FragmentAtExactly | src/eShop.ServiceDefaults/Processors/DataMaskingLogsProcessor.cs:21 | the fragment found at `p` is `f` if and only if `f` starts at `p`, a policy pattern starts at `p`, and `f` has the layout above; such an `f` is called a key-anchored fragment below |
| DataMasking.NameHoldsKey | src/eShop.ServiceDefaults/Processors/DataMaskingLogsProcessor.cs:21 | a name that starts with a pattern and runs to the colon is matched by the policy |
| DataMasking.FirstFragment | src/eShop.ServiceDefaults/Processors/DataMaskingLogsProcessor.cs:21 | the first fragment at or after `p`; no fragment starts before it |
| DataMasking.MaskPairInString | src/eShop.ServiceDefaults/Processors/DataMaskingLogsProcessor.cs:21 | "no match" exactly when no key-anchored fragment occurs anywhere; otherwise same length, everything before and after the first fragment's value verbatim, and the value replaced by `Mask(name, value)` |
| DataMasking.FragmentPresentMasks | src/eShop.ServiceDefaults/Processors/DataMaskingLogsProcessor.cs:21 | a key-anchored fragment anywhere gets the text masked, at that fragment or at an earlier one |
| DataMasking.NoColonNoMatch | src/eShop.ServiceDefaults/Processors/DataMaskingLogsProcessor.cs:21 | text without a colon is "no match" |
| DataMasking.MaskPairNoMatchExample | src/eShop.ServiceDefaults/Processors/DataMaskingLogsProcessor.cs:21 | `order completed` is "no match" |
| DataMasking.FirstFragmentMasks | src/eShop.ServiceDefaults/Processors/DataMaskingLogsProcessor.cs:21 | the first fragment's name always masks its value |
| DataMasking.MaskPairOfFirst | src/eShop.ServiceDefaults/Processors/DataMaskingLogsProcessor.cs:21 | the masked text is prefix, masked value and suffix of the first fragment |
| DataMasking.LeadingUserIdFragment | src/eShop.ServiceDefaults/Processors/DataMaskingLogsProcessor.cs:21 | in `userId: value` the fragment is the whole text, with the value after the space |
| DataMasking.MaskPairLeadingUserId | src/eShop.ServiceDefaults/Processors/DataMaskingLogsProcessor.cs:21 | `userId: value` becomes `userId: ` followed by `Mask("userId", value)` |
| DataMasking.UserIdMatchesFirst | src/eShop.ServiceDefaults/Processors/DataMasking.cs:8 | the name `userId` selects the first entry |
| DataMasking.MaskPairWorkedExample | src/eShop.ServiceDefaults/Processors/DataMaskingLogsProcessor.cs:21 | the 46-character worked example keeps `userId: abcde` and stars the last 33 characters |
| Telemetry.FindKey | src/eShop.ServiceDefaults/Processors/DataMaskingActivityProcessor.cs:49 | the position of the first tag with the name; no earlier tag has it |
| Telemetry.SetFirst | src/eShop.ServiceDefaults/Processors/DataMaskingActivityProcessor.cs:40-49 | an existing name: the tag count is kept and its first tag takes the value; an absent name: the tag is appended; either way every existing position keeps its name, every tag with another name is untouched, and every position other than the first tag of that name is untouched |
| Telemetry.SetFirstThenFind | src/eShop.ServiceDefaults/Processors/DataMaskingActivityProcessor.cs:40-49 | looking the name up after setting it finds the value just set |
| Telemetry.SetFirstKeepsKeys | src/eShop.ServiceDefaults/Processors/DataMaskingActivityProcessor.cs:49 | setting an existing tag keeps every name, their number and their order |
| Telemetry.Activity.SetTag | src/eShop.ServiceDefaults/Processors/DataMaskingActivityProcessor.cs:49 | the first tag with the name takes the value, or a tag is appended |
| DataMaskingActivityProcessor.MaskField | src/eShop.ServiceDefaults/Processors/DataMaskingActivityProcessor.cs:34-38 | a field keeps its name |
| DataMaskingActivityProcessor.MaskedDictionary | src/eShop.ServiceDefaults/Processors/DataMaskingActivityProcessor.cs:33-39 | the dictionary keeps its size |
| DataMaskingActivityProcessor.MaskedDictionaryAt | src/eShop.ServiceDefaults/Processors/DataMaskingActivityProcessor.cs:33-38 | names and order kept; non-string fields kept; a string field becomes its masked value when that is not null, else stays |
| DataMaskingActivityProcessor.MaskedDictionaryUnchanged | src/eShop.ServiceDefaults/Processors/DataMaskingActivityProcessor.cs:33-39 | a dictionary none of whose string fields the policy matches comes back unchanged |
| DataMaskingActivityProcessor.MaskNestedTags | src/eShop.ServiceDefaults/Processors/DataMaskingActivityProcessor.cs:33-39 | the in-place loop over the fields yields the field-by-field masked dictionary |
| DataMaskingActivityProcessor.IsNestedValue | src/eShop.ServiceDefaults/Processors/DataMaskingActivityProcessor.cs:27 | a value taken as nested has at least two characters, the opening and the closing brace |
| DataMaskingActivityProcessor.MaskedTagValue | src/eShop.ServiceDefaults/Processors/DataMaskingActivityProcessor.cs:27-50 | a nested value yields a value exactly when it parses to a dictionary; a plain value yields one exactly when the tag name matches the policy, and of the same length |
| DataMaskingActivityProcessor.VisitTag | src/eShop.ServiceDefaults/Processors/DataMaskingActivityProcessor.cs:25-50 | a null value changes nothing; a tag whose name exists is rewritten in place, without adding a tag; every position keeps its name, and tags with other names are untouched |
| DataMaskingActivityProcessor.VisitAll | src/eShop.ServiceDefaults/Processors/DataMaskingActivityProcessor.cs:23-52 | visiting any sequence of tags never removes a tag or renames a position |
| DataMaskingActivityProcessor.Redacted | src/eShop.ServiceDefaults/Processors/DataMaskingActivityProcessor.cs:21-52 | the whole hook keeps the number of tags and every position's name |
| DataMaskingActivityProcessor.Updated | src/eShop.ServiceDefaults/Processors/DataMaskingActivityProcessor.cs:25-50 | a tag keeps its name, and its value is null after the hook exactly when it was before |
| DataMaskingActivityProcessor.OnEnd | src/eShop.ServiceDefaults/Processors/DataMaskingActivityProcessor.cs:17-53 | a null span is left alone; otherwise the tags become those obtained by visiting, in order, every tag of the snapshot taken before any write |
| DataMaskingActivityProcessor.VisitAllKeepsKeys | src/eShop.ServiceDefaults/Processors/DataMaskingActivityProcessor.cs:21-23 | after any prefix of the snapshot the names are those of the original tags |
| DataMaskingActivityProcessor.RedactedKeepsKeys | src/eShop.ServiceDefaults/Processors/DataMaskingActivityProcessor.cs:21-23 | the hook never adds, removes, renames or reorders tags |
| DataMaskingActivityProcessor.VisitAllDistinct | src/eShop.ServiceDefaults/Processors/DataMaskingActivityProcessor.cs:23-51 | with distinct names, after `n` visits the first `n` tags are rewritten in place and the rest are untouched |
| DataMaskingActivityProcessor.RedactedDistinct | src/eShop.ServiceDefaults/Processors/DataMaskingActivityProcessor.cs:23-51 | with distinct names tag `i` becomes `Updated(tag i)`, which `Updated`'s definition spells out as follows: null values skipped; a nested value re-serialised after masking when it parses, kept on a parse error or null; a plain value masked under the tag name when that matches, else kept |
| DataMaskingActivityProcessor.NestedIgnoresTagName | src/eShop.ServiceDefaults/Processors/DataMaskingActivityProcessor.cs:27 | a brace-wrapped value is never masked under its tag's name |
| DataMaskingActivityProcessor.DuplicateNameExample | src/eShop.ServiceDefaults/Processors/DataMaskingActivityProcessor.cs:40-49 | two `userId` tags: both masked values go to the first tag and the second keeps its raw value |
| DataMaskingActivityProcessor.StatusIsNotSensitive | src/eShop.ServiceDefaults/Processors/DataMasking.cs:5-16 | the name `status` matches no pattern |
| DataMaskingActivityProcessor.GuidMasked | src/eShop.ServiceDefaults/Processors/DataMasking.cs:23-27 | a 36-character identifier under `userId` keeps its first 3 characters |
| DataMaskingActivityProcessor.NestedPayloadExample | src/eShop.ServiceDefaults/Processors/DataMaskingActivityProcessor.cs:27-41 | the payload `{"userId": <36-character id>, "status": "ok"}` is re-serialised with the identifier keeping 3 characters and `status` untouched |
| DataMaskingLogsProcessor.MaskedMessage | src/eShop.ServiceDefaults/Processors/DataMaskingLogsProcessor.cs:16-23 | a null message stays null; a message keeps its length; "no match" leaves it unchanged; a match stores the spliced text |
| DataMaskingLogsProcessor.AsWrittenMessage | src/eShop.ServiceDefaults/Processors/DataMaskingLogsProcessor.cs:21 | line 21 stores whatever the masker returns |
| DataMaskingLogsProcessor.OnEnd | src/eShop.ServiceDefaults/Processors/DataMaskingLogsProcessor.cs:16-23 | a null record or message is left alone; otherwise only the message is rewritten, and only on a match (the guarded form of line 21) |
| DataMaskingLogsProcessor.OnEndAsWritten | src/eShop.ServiceDefaults/Processors/DataMaskingLogsProcessor.cs:16-23 | line 21 as written: the message becomes the masker's result, "no match" included |
| DataMaskingLogsProcessor.AsWrittenErasesMessage | src/eShop.ServiceDefaults/Processors/DataMaskingLogsProcessor.cs:21 | a message without a sensitive fragment is erased as written and kept by the guarded form |
| DataMaskingLogsProcessor.OrderCompletedExample | src/eShop.ServiceDefaults/Processors/DataMaskingLogsProcessor.cs:21 | `order completed` becomes null as written and stays `order completed` guarded |
| DataMaskingLogsProcessor.GuardedAgreesOnMatch | src/eShop.ServiceDefaults/Processors/DataMaskingLogsProcessor.cs:21 | the two forms agree exactly on messages holding a sensitive fragment |
| DataMaskingLogsProcessor.MaskedMessageSplice | src/eShop.ServiceDefaults/Processors/DataMaskingLogsProcessor.cs:21 | on a match the stored message has the original's length and keeps everything around the masked value |
| DataMaskingLogsProcessor.WorkedExample | src/eShop.ServiceDefaults/Processors/DataMaskingLogsProcessor.cs:21 | the worked example's message ends as `userId: abcde` followed by 33 `*` |
| SeedWork.RemoveAll | src/Ordering.Domain/SeedWork/Entity.cs:33-35 | `Replace(pat, "")` never lengthens the text |
| SeedWork.RemoveAllHead | src/Ordering.Domain/SeedWork/Entity.cs:33-35 | an occurrence at the front is dropped |
| SeedWork.RemoveAllKeep | src/Ordering.Domain/SeedWork/Entity.cs:33-35 | a first character that starts no occurrence is kept |
| SeedWork.OccursInTail | src/Ordering.Domain/SeedWork/Entity.cs:33-35 | occurrences in the tail are those one position further on |
| SeedWork.RemoveAllAbsent | src/Ordering.Domain/SeedWork/Entity.cs:33-35 | text without the pattern is unchanged |
| SeedWork.RemoveAllSplice | src/Ordering.Domain/SeedWork/Entity.cs:33-35 | the first occurrence is cut out and removal continues after it |
| SeedWork.RecordedContent | src/Ordering.Domain/SeedWork/Entity.cs:30-37 | other events are recorded verbatim; the recorded content is never longer than the event text |
| SeedWork.RemoveBothEntries | src/Ordering.Domain/SeedWork/Entity.cs:33-35 | the two chained replacements cut out one entry each and keep the text around them |
| SeedWork.OrderStartedRedacted | src/Ordering.Domain/SeedWork/Entity.cs:30-37 | an order-started event's recorded content is its text without the `UserName = …, ` and `CardHolderName = …, ` entries |
| SeedWork.Xor31 | src/Ordering.Domain/SeedWork/Entity.cs:81 | the low five bits are flipped and the others kept, within the `int` range |
| SeedWork.Xor31Involution | src/Ordering.Domain/SeedWork/Entity.cs:81 | `(x ^ 31) ^ 31 == x` |
| SeedWork.Xor31Injective | src/Ordering.Domain/SeedWork/Entity.cs:81 | distinct identifiers hash differently |
| SeedWork.Entity.constructor | src/Ordering.Domain/SeedWork/Entity.cs:9-23 | a new entity is transient, with no cached hash and no event list |
| SeedWork.Entity.SetId | src/Ordering.Domain/SeedWork/Entity.cs:17-20 | the protected setter changes only the identifier |
| SeedWork.Entity.IsTransient | src/Ordering.Domain/SeedWork/Entity.cs:52-55 | an entity is transient while its identifier is the default `0` |
| SeedWork.Entity.Equals | src/Ordering.Domain/SeedWork/Entity.cs:57-74 | an entity equals itself; anything it equals is an entity of its runtime type; a different entity it equals shares its non-zero identifier |
| SeedWork.Entity.HashCode | src/Ordering.Domain/SeedWork/Entity.cs:76-88 | a transient entity's hash is its reference hash; a persistent one answers its cached hash when there is one, else `Id ^ 31` |
| SeedWork.Entity.GetHashCode | src/Ordering.Domain/SeedWork/Entity.cs:76-88 | answers the reference hash while transient; otherwise fills the cache at the first call and answers the cached value |
| SeedWork.Entity.AddDomainEvent | src/Ordering.Domain/SeedWork/Entity.cs:26-40 | a recorded span gets `event.type` and the redacted `event.content`; the list is created if needed and the event appended at its end |
| SeedWork.Entity.RemoveDomainEvent | src/Ordering.Domain/SeedWork/Entity.cs:42-45 | no list, no change; otherwise the first equal event is removed |
| SeedWork.Entity.ClearDomainEvents | src/Ordering.Domain/SeedWork/Entity.cs:47-50 | no list, no change; otherwise the list is emptied |
| SeedWork.RemoveFirst | src/Ordering.Domain/SeedWork/Entity.cs:44 | an absent event leaves the list alone; otherwise one copy of it leaves the multiset and the length drops by one |
| SeedWork.RemoveFirstAt | src/Ordering.Domain/SeedWork/Entity.cs:44 | removal cuts the list at the first occurrence and keeps the rest in order |
| SeedWork.EqualsOnlyEntities | src/Ordering.Domain/SeedWork/Entity.cs:59-60 | null and non-entity arguments are never equal |
| SeedWork.EqualsReflexive | src/Ordering.Domain/SeedWork/Entity.cs:62-63 | an entity equals itself, even while transient |
| SeedWork.EqualsSymmetric | src/Ordering.Domain/SeedWork/Entity.cs:57-74 | `a.Equals(b) == b.Equals(a)` |
| SeedWork.EqualsTransitive | src/Ordering.Domain/SeedWork/Entity.cs:57-74 | `Equals` is transitive |
| SeedWork.TransientEqualsOnlyItself | src/Ordering.Domain/SeedWork/Entity.cs:70-71 | a transient entity equals only itself |
| SeedWork.EqualsDistinct | src/Ordering.Domain/SeedWork/Entity.cs:65-73 | distinct entities are equal exactly when they share runtime type and a non-zero identifier |
| SeedWork.OperatorEqualsCases | src/Ordering.Domain/SeedWork/Entity.cs:89-100 | `==` is true for two nulls, false when only one side is null, `left.Equals(right)` otherwise; `!=` is its negation |
| SeedWork.OperatorEqualsSymmetric | src/Ordering.Domain/SeedWork/Entity.cs:89-95 | `==` is symmetric |
| SeedWork.OperatorEquals | src/Ordering.Domain/SeedWork/Entity.cs:89-95 | a null left side equals exactly a null right side; a non-null left side equals only a non-null entity of its runtime type |
| SeedWork.OperatorNotEquals | src/Ordering.Domain/SeedWork/Entity.cs:97-100 | a null left side differs exactly from a non-null right side; a reference never differs from itself |
| SeedWork.EqualEntitiesHashAlike | src/Ordering.Domain/SeedWork/Entity.cs:76-83 | equal entities whose caches hold the hash of their current identifier answer the same hash |
| SeedWork.HashSurvivesIdChange | src/Ordering.Domain/SeedWork/Entity.cs:78-83 | the hash answered before an identifier change is answered after it |
| SeedWork.HashBreaksAfterIdChange | src/Ordering.Domain/SeedWork/Entity.cs:76-83 | an entity that hashed at Id 5 and then took Id 6 equals another entity with Id 6, yet they answer 26 and 25 |
| WebApp.Increment | src/WebApp/Services/BasketState.cs:45 | `+ 1` on a C# `int`, wrapping at the largest value |
| WebApp.FirstIndex | src/WebApp/Services/BasketState.cs:40-48 | the first line for the product; no earlier line is for it |
| WebApp.AddOne | src/WebApp/Services/BasketState.cs:38-54 | one more line exactly when the product was absent; every existing line keeps its product, and lines for other products are untouched |
| WebApp.WithQuantity | src/WebApp/Services/BasketState.cs:61-73 | an absent product changes nothing; one line fewer exactly when a present product gets a quantity of zero or less; a positive quantity keeps every line's product; every resulting line is an old line or the product at the new quantity |
| WebApp.TotalConcat | src/WebApp/Services/BasketState.cs:38-54 | the total of two lists is the sum of their totals |
| WebApp.TotalUpdate | src/WebApp/Services/BasketState.cs:45 | replacing a line changes the total by the difference of the quantities |
| WebApp.AddOneExisting | src/WebApp/Services/BasketState.cs:40-48 | a product already present: only its first line is incremented; length, products and order kept |
| WebApp.AddOneAbsent | src/WebApp/Services/BasketState.cs:51-54 | an absent product: one unit of it is appended after the existing lines |
| WebApp.AddOneContains | src/WebApp/Services/BasketState.cs:38-54 | after an add the product is in the basket |
| WebApp.AddOneTotal | src/WebApp/Services/BasketState.cs:38-54 | an add grows the total by exactly one unit unless the line's quantity wraps |
| WebApp.WithQuantityAbsent | src/WebApp/Services/BasketState.cs:64 | setting a quantity for an absent product changes nothing |
| WebApp.WithQuantitySet | src/WebApp/Services/BasketState.cs:66-69 | a positive quantity lands on the product's first line and nowhere else; the total changes by the difference |
| WebApp.WithQuantityRemove | src/WebApp/Services/BasketState.cs:70-73 | a quantity of zero or less removes that line, keeps the others in order and takes its units off the total |
| WebApp.BasketService.GetBasket | src/WebApp/Services/BasketState.cs:144 | answers the stored lines |
| WebApp.BasketService.UpdateBasket | src/WebApp/Services/BasketState.cs:57 | stores the pushed lines |
| WebApp.BasketService.DeleteBasket | src/WebApp/Services/BasketState.cs:21-22 | empties the stored basket |
| WebApp.Subscription.constructor | src/WebApp/Services/BasketState.cs:172 | a subscription records its owner and callback |
| WebApp.Subscription.Dispose | src/WebApp/Services/BasketState.cs:175 | the owner's set loses exactly this subscription; nothing else changes |
| WebApp.BasketState.constructor | src/WebApp/Services/BasketState.cs:10-19 | nothing memoised, no subscriptions |
| WebApp.BasketState.NotifyOnChange | src/WebApp/Services/BasketState.cs:29-34 | a new subscription for the callback joins the set and is returned |
| WebApp.BasketState.NotifyChangeSubscribers | src/WebApp/Services/BasketState.cs:132-133 | every current subscription's callback is invoked |
| WebApp.BasketState.FetchBasketItems | src/WebApp/Services/BasketState.cs:138-148 | answers the memoised basket if there is one, else the service's, which is then memoised |
| WebApp.BasketState.GetBasketItems | src/WebApp/Services/BasketState.cs:24-27 | an authenticated user gets the fetched basket; an anonymous one gets an empty basket and nothing is fetched |
| WebApp.BasketState.DeleteBasket | src/WebApp/Services/BasketState.cs:21-22 | the service's basket is emptied |
| WebApp.BasketState.Add | src/WebApp/Services/BasketState.cs:36-59 | the service stores the fetched basket with one more unit of the product, the memo is dropped, and every subscriber is notified once |
| WebApp.BasketState.SetQuantity | src/WebApp/Services/BasketState.cs:61-79 | an absent product: nothing pushed, nobody notified, the fetched basket memoised; otherwise the updated lines are pushed, the memo dropped and every subscriber notified |
| WebApp.SubscribeThenDispose | src/WebApp/Services/BasketState.cs:29-34 | subscribing and disposing that subscription leaves the set as it was |
| WebApp.FetchIsMemoised | src/WebApp/Services/BasketState.cs:140 | a second fetch answers the first fetch's basket even when the stored basket changed in between |
| WebApp.FetchAfterAdd | src/WebApp/Services/BasketState.cs:56 | after an add the next fetch reads the basket just pushed |
| WebApp.FetchAfterDelete | src/WebApp/Services/BasketState.cs:21-22 | after a fetch, deleting the basket leaves the memo, so the next fetch answers the old lines |

## Left out

- Newtonsoft.Json: `DeserializeObject` and `SerializeObject` are function parameters. The JSON text format, field order in the output and the `JsonException` log message are not modelled.
- The hooks' `ILogger` calls and constructors (the null-logger check), OpenTelemetry's processor plumbing, exporters and registration in `Extensions.cs`: framework wiring.
- Concurrent invocation of the hooks: they share no mutable state beyond the read-only policy.
- Span tags whose value is not a string: `Activity.Tags` only lists string-valued tags, which is all the hook visits. The runtime's `SetTag`, though, looks a name up among all tags, including non-string ones, so when a non-string tag shares a name with a string tag and comes first, the runtime updates that tag where the model's `Telemetry.SetFirst` (over string tags only) updates the string tag.
- DataMasking.Mask: `OrdinalIgnoreCase` is modelled as ASCII lower-casing only; names with non-ASCII letters that fold onto a pattern are not covered.
- DataMasking.Mask: a Dafny `string` is a sequence of Unicode scalar values, while C# `Length` and range slicing (DataMasking.cs:23-25) count UTF-16 code units. A character outside the Basic Multilingual Plane counts 2 in C# and 1 here: one emoji under `userId` masks to `**` in C# and to `*` in the model. C# slicing can also split a surrogate pair, which a Dafny `char` cannot hold.
- DataMasking.MaskPairInString: positions and lengths are counted in Unicode scalar values, as for `Mask`, and `DataMasking.IsWhiteSpace` is ASCII white space only (space and tab through carriage return); Unicode spaces such as U+00A0 do not end a value.
- DataMaskingActivityProcessor.IsNestedValue: `StartsWith("{")` and `EndsWith("}")` at DataMaskingActivityProcessor.cs:27 are culture-sensitive comparisons that skip ignorable characters (a trailing zero-width character does not hide the brace); the model compares the first and last characters exactly.
- DataMaskingActivityProcessor.OnEnd: an exception other than `JsonException` thrown by the parser is not modelled; the parse result is one of error, null or a dictionary.
- SeedWork.Entity.AddDomainEvent: the `ToString()` text of an event is an input, since the event classes are not part of this model; the `ActivitySource` and the span's start and disposal are left out.
- SeedWork.Entity.GetHashCode: `base.GetHashCode()` is a fixed number per entity, standing for the runtime's reference hash.
- SeedWork.Entity.RemoveDomainEvent: `List.Remove` at Entity.cs:44 compares with the event's own `Equals`. For event classes that do not override it this is reference identity, so two distinct event objects with equal contents are different events there, while the model removes the first event equal in value. The two agree when no event object's contents occur twice in the list.
- SeedWork.RemoveFirst: stated over value equality of events, for the reason given on the `RemoveDomainEvent` line.
- `DomainEvents` as a read-only view is not modelled separately; it is the `domainEvents` field.
- WebApp.BasketState.FetchBasketItems: the catalog lookup in `FetchCoreAsync` (names, prices, a missing product) and the generated line identifiers are not modelled; a line is its product and quantity.
- `CheckoutAsync`, its GUID generation, the `Meter` counter and the decimal basket total: remote calls and values the list updates do not use.
- WebApp.BasketState.SetQuantity: `row.Quantity = quantity` at BasketState.cs:68 mutates a `BasketItem` object. That object is shared with the memoised collection and with any basket list already handed to a caller, so those see the new quantity too; removal at line 72 leaves them alone. Basket lines are values here, so this aliasing is not captured: the model only states the lines pushed to the service and that the memo is dropped.
- The authentication lookup behind `GetBasketItemsAsync` is an `isAuthenticated` parameter.
- Asynchrony: each awaited task is modelled by its result at the point it is awaited; interleavings of concurrent calls on one `BasketState` are not modelled.

## Findings

| source | as written | input that shows it | evidently intended | confidence | as-written member | corrected member |
|---|---|---|---|---|---|---|
| src/eShop.ServiceDefaults/Processors/DataMaskingLogsProcessor.cs:21 | the masker's result is assigned to `FormattedMessage` unconditionally, so "no match" (null) replaces the message | a record whose message is `order completed` | keep the message when the masker reports no match, and replace it only with a spliced result | high (not executed) | DataMaskingLogsProcessor.OnEndAsWritten, DataMaskingLogsProcessor.OrderCompletedExample | DataMaskingLogsProcessor.OnEnd, DataMaskingLogsProcessor.MaskedMessageSplice |
