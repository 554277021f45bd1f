# MCP prompt router: the routing core in Dafny

The prompt router takes a task text with optional routing constraints, masks
personal data in the task, runs the profile's routing policy and answers with a
decision (provider and model), the trace of the rules that fired (the policy
path), an echo of the masked task and an optional schema check of a stub
extraction. Around it sit a denylist scanner and two estimators. This project
models these pieces as pure Dafny functions and proves what they promise.

- `Wrappers` holds `Option` and `Result`.
- `Chars` holds the ASCII character classes of the regular expressions and the
  maximal run of one class.
- `PiiMask` models `mask_pii`. The e-mail pattern and the phone pattern are
  each written twice: as a full-match predicate and as a matcher that follows
  the backtracking order of Python's engine. The matcher is proved to return the
  longest match. `re.sub` is modelled as a left-to-right substitution without
  overlap. The leading `\b` of the phone pattern looks at the character before
  the match in the text being substituted, and the model carries that
  character's word-ness along.
- `PiiMaskProofs` proves the following about `mask_pii`:
  - each leftmost match becomes its mask token, and the text around it is copied;
  - no match of either pattern survives it;
  - it fixes exactly the texts that hold no match;
  - it is idempotent;
  - it leaves both mask tokens unchanged.
- `Denylist` models `check_denylist`:
  - each of the three patterns has a declarative reading, "some span between
    word boundaries has this shape";
  - each pattern also has the matcher that the search runs;
  - the search and the declarative reading are proved equivalent.
  - The card pattern `(?:\d[ -]*?){13,16}` is the only one where this takes an
    induction.
- `Tokens` models `naive_token_estimate`. `Costs` models `PRICES` and
  `estimate_cost_cents`, using exact `real` arithmetic.
- `Policy` models `evaluate_policy`. It is a fold over the profile's rules with
  a closed `Rule` datatype. A condition string is recognised only by exact
  comparison with the three literals. A null latency or budget raises
  `TypeError` in Python; here it is the `Failure` of a `Result`.
- `Router` models the response assembly of `route`. `validator(payload, schema)`
  stands for the JSON-Schema library.

The code differs from what the policy vocabulary suggests, and the model follows the code:

- Only the exact action `"prefer: gpt-4o-mini"` is recognised, and it writes
  the model the decision already holds. A general "prefer: X" does not set the
  model to X, so the decision's model is always `gpt-4o-mini`.
- A `default` rule acts at its position in the list, and only when the path is
  still empty. Conditional rules after it still append their entries. It is not
  a catch-all that is evaluated last.
- Constraint fields may be null, and any string is accepted for `safety`.
- `route` never calls the denylist.
- Costs use exact arithmetic here. The code uses binary floating point.

## Model

| member | source | states |
|---|---|---|
| `PiiMask.DomainEndIsLongest` | src/mcp_router/safety/pre.py:3 | the domain matcher returns the longest prefix that is a domain (`[A-Za-z0-9.-]+\.[A-Za-z]{2,}`), and returns nothing exactly when no prefix is one |
| `PiiMask.EmailEndIsLongest` | src/mcp_router/safety/pre.py:3 | the e-mail matcher at a position returns the longest e-mail match there, and none exactly when no e-mail starts there |
| `PiiMask.PhoneEndIsLongest` | src/mcp_router/safety/pre.py:4 | the phone matcher returns the longest word-bounded phone match at a position, and none exactly when there is no such match |
| `PiiMask.MaskEmails` | src/mcp_router/safety/pre.py:9 | `EMAIL_RE.sub` returns a text without `@` unchanged |
| `PiiMask.MaskPhones` | src/mcp_router/safety/pre.py:10 | `PHONE_RE.sub` returns a text without digits unchanged |
| `PiiMask.MaskPii` | src/mcp_router/safety/pre.py:6-8 | the empty text is returned unchanged |
| `PiiMaskProofs.MaskEmailsAtFirstMatch` | src/mcp_router/safety/pre.py:9 | at the leftmost e-mail match, taken at its longest, the substitution copies the text before it, writes `***@***` in its place and carries on after it |
| `PiiMaskProofs.MaskPhonesAtFirstMatch` | src/mcp_router/safety/pre.py:10 | at the leftmost phone match, taken at its longest, the substitution copies the text before it, writes `***-***-****` in its place and carries on after it, with the match's last character as the one before |
| `PiiMaskProofs.MaskEmailsLeavesNoEmail` | src/mcp_router/safety/pre.py:9 | after the e-mail substitution no e-mail match is left anywhere in the text |
| `PiiMaskProofs.MaskPhonesKeepsNoEmail` | src/mcp_router/safety/pre.py:10 | the phone substitution cannot create an e-mail match |
| `PiiMaskProofs.MaskPhonesLeavesNoPhone` | src/mcp_router/safety/pre.py:10 | after the phone substitution no phone match is left anywhere in the text |
| `PiiMaskProofs.MaskPiiLeavesNoPii` | src/mcp_router/safety/pre.py:3-11 | the masked text contains no match of either pattern |
| `PiiMaskProofs.MaskPiiFixesExactlyClean` | src/mcp_router/safety/pre.py:3-11 | a text comes back unchanged if and only if it holds no e-mail match and no phone match |
| `PiiMaskProofs.MaskPiiIdempotent` | src/mcp_router/safety/pre.py:6-11 | masking a masked text changes nothing |
| `PiiMaskProofs.MaskPiiKeepsTextWithoutAtOrDigit` | src/mcp_router/safety/pre.py:3-10 | a text with no `@` and no digit comes back unchanged |
| `PiiMaskProofs.PhoneMaskIsStable` | src/mcp_router/safety/pre.py:4-10 | the phone mask token passes through masking unchanged |
| `PiiMaskProofs.EmailMaskIsStable` | src/mcp_router/safety/pre.py:3-10 | the e-mail mask token passes through masking unchanged |
| `PiiMaskProofs.NoAddressSurvives` | src/mcp_router/safety/pre.py:3-9 | no string the e-mail pattern matches occurs anywhere in a masked text |
| `PiiMaskProofs.ExampleAddressIsEmail` | src/mcp_router/safety/pre.py:3 | `jane@example.com` is matched entirely by the e-mail pattern |
| `Denylist.Search` | src/mcp_router/safety/denylist.py:8 | the search from a position succeeds exactly when the matcher accepts at some later start position |
| `Denylist.CardMatchAtIff` | src/mcp_router/safety/denylist.py:2 | the card matcher accepts at a position exactly when some span from there is 13 to 16 repetitions of a digit and separators, between word boundaries |
| `Denylist.MatchAtIff` | src/mcp_router/safety/denylist.py:2 | for each of the three patterns, the matcher accepts at a position exactly when a span starting there matches the pattern |
| `Denylist.SearchIff` | src/mcp_router/safety/denylist.py:2-8 | `p.search(text)` succeeds exactly when some span of the text matches p |
| `Denylist.HitsInOrder` | src/mcp_router/safety/denylist.py:7-8 | the loop reports at most three pattern texts, in declared order, each at most once |
| `Denylist.HitsAreMatches` | src/mcp_router/safety/denylist.py:7-8 | a pattern's text is reported exactly when the pattern matches, and nothing is reported exactly when none matches |
| `Denylist.CheckDenylist` | src/mcp_router/safety/denylist.py:4-9 | empty text gives no hits; otherwise each pattern's text appears exactly when it matches, in declared order, without repeats |
| `Denylist.SsnIsReported` | src/mcp_router/safety/denylist.py:2-8 | a word-bounded `ddd-dd-dddd` anywhere in the text is always reported |
| `Denylist.CardDigitsAreReported` | src/mcp_router/safety/denylist.py:2-8 | a word-bounded run of 13 to 16 digits is always reported as a card number |
| `Denylist.CleanTextHasNoHits` | src/mcp_router/safety/denylist.py:2-9 | a text without digits and without `kill`, `bomb` or `harm` in any letter case as a whole word (between word boundaries) has no hits; the keywords may still occur inside longer words |
| `Tokens.NaiveTokenEstimate` | src/mcp_router/core/tokens.py:1-4 | empty text gives 0 and only empty text does; a non-empty text gives between 1 and its length; from four characters on, the estimate is the number of whole groups of four |
| `Tokens.EstimateDependsOnLength` | src/mcp_router/core/tokens.py:1-4 | two texts of the same length get the same estimate |
| `Tokens.EstimateMonotone` | src/mcp_router/core/tokens.py:1-4 | a longer text never gets a smaller estimate |
| `Tokens.EstimateOfConcat` | src/mcp_router/core/tokens.py:1-4 | appending text never lowers the estimate |
| `Tokens.EstimateExamples` | src/mcp_router/core/tokens.py:4 | three characters give 1 and a hundred characters give 25 |
| `Costs.EstimateCostCents` | src/mcp_router/core/costs.py:15-20 | an unknown model costs 0; for a known model, ten times the cost in cents is the prompt tokens times the prompt price plus the output tokens times the completion price |
| `Costs.PricesArePositive` | src/mcp_router/core/costs.py:8-13 | every price in the table is positive |
| `Costs.ZeroTokensCostNothing` | src/mcp_router/core/costs.py:15-20 | no tokens cost nothing, for every model |
| `Costs.CostIsNonNegative` | src/mcp_router/core/costs.py:8-20 | non-negative token counts never give a negative cost |
| `Costs.CostIsMonotone` | src/mcp_router/core/costs.py:8-20 | for a fixed model, more prompt or output tokens never cost less |
| `Costs.CostIsAdditive` | src/mcp_router/core/costs.py:19-20 | the cost of summed token counts is the sum of the costs |
| `Costs.CostOrder` | src/mcp_router/core/costs.py:8-13 | for equal non-negative token counts, gpt-4o-mini costs at most claude-3-haiku, which costs at most gpt-4o, which costs at most claude-3-opus |
| `Policy.ParseCond` | src/mcp_router/api/main.py:45-53 | a condition string is recognised exactly when it equals one of the three literals, and the recognised condition spells that string |
| `Policy.CondRoundTrip` | src/mcp_router/api/main.py:45-53 | reading back the spelling of a condition gives the same condition |
| `Policy.Step` | src/mcp_router/api/main.py:41-60 | one rule only appends to the path, at most two entries, and leaves the model as it was or sets it to gpt-4o-mini |
| `Policy.Fold` | src/mcp_router/api/main.py:41-60 | the loop only appends to the path, at most two entries per rule, and keeps the model at gpt-4o-mini |
| `Policy.EvaluatePolicy` | src/mcp_router/api/main.py:28-65 | a decision always has provider openai, model gpt-4o-mini and a path of at least one entry and at most one more than twice the number of rules |
| `Policy.NoRulesGiveFinalEntry` | src/mcp_router/api/main.py:30-63 | an unknown profile, or a profile without rules, gives exactly the path `["default: prefer fast-cheap-safe"]` |
| `Policy.MissingConstraintsAreDefaults` | src/mcp_router/api/main.py:13-16 | no constraints object evaluates like the defaults 1200, 5.0 and "standard" |
| `Policy.FirstFault` | src/mcp_router/api/main.py:47-53 | there is a first faulting rule exactly when some rule compares a null latency or budget |
| `Policy.FoldFailsAtFirstFault` | src/mcp_router/api/main.py:41-56 | the loop raises exactly when some rule compares a null constraint, and the error is that of the first such rule |
| `Policy.StepEntries` | src/mcp_router/api/main.py:42-56 | apart from default entries, an entry is in the path after one rule exactly when it was there before or the rule's condition and actions call for it |
| `Policy.QuietRuleAddsNothing` | src/mcp_router/api/main.py:41-57 | a rule whose condition calls for no entry (an unrecognised condition string, a condition that does not hold, or a rule with neither key) leaves the path and the model unchanged, unless it is a `default` rule on an empty path |
| `Policy.QuietFold` | src/mcp_router/api/main.py:41-60 | a run of rules that are not `default` rules and whose conditions call for no entry leaves the path as it was |
| `Policy.QuietRulesGiveFinalEntry` | src/mcp_router/api/main.py:41-63 | when no rule of the profile fires, however many rules it has, the path is exactly `["default: prefer fast-cheap-safe"]` |
| `Policy.EmittedMembers` | src/mcp_router/api/main.py:45-56 | the entries a rule writes, as listed in fixed order, are exactly the conditional entries its condition and actions call for |
| `Policy.StepAppendsEmitted` | src/mcp_router/api/main.py:41-56 | a conditional rule appends exactly the entries its condition and actions call for, in the order strict, prefer, fallback, budget, avoid, even when they are already in the path |
| `Policy.FoldAppendsEmitted` | src/mcp_router/api/main.py:41-56 | while no `default` rule can fire, the loop appends each rule's entries in that order, rule after rule, repeats included |
| `Policy.EvaluationWithoutDefaultRules` | src/mcp_router/api/main.py:41-65 | for a profile without `default` rules, the path is the entries the rules call for, rule after rule, or `["default: prefer fast-cheap-safe"]` when they call for none |
| `Policy.FoldEntries` | src/mcp_router/api/main.py:41-56 | apart from default entries, an entry is in the path exactly when some rule's condition holds and its actions call for that entry |
| `Policy.StepKeepsShape` | src/mcp_router/api/main.py:45-60 | one rule keeps "avoid" directly after "budget<=3", and keeps a default entry only at the first position |
| `Policy.FoldKeepsShape` | src/mcp_router/api/main.py:41-60 | the loop keeps "avoid" directly after "budget<=3", and keeps a default entry only at the first position |
| `Policy.DecisionPath` | src/mcp_router/api/main.py:41-65 | in the returned path, "avoid" directly follows "budget<=3", a default entry can only come first, and a conditional entry appears exactly when its rule fired |
| `Policy.DefaultRuleWritesFirstEntry` | src/mcp_router/api/main.py:57-60 | a default rule reached while the path is empty writes "default: " plus its joined actions as the first entry, and later rules add after it |
| `Router.ValidateJsonSchema` | src/mcp_router/safety/post.py:4-9 | a valid payload gives (True, []); a validation error gives (False, [message]); a schema error escapes |
| `Router.Take20` | src/mcp_router/api/main.py:112 | the slice is a prefix of the text, of length 20 or the whole text if shorter |
| `Router.Route` | src/mcp_router/api/main.py:75-117 | a response always carries openai and gpt-4o-mini; its policy path is the path `evaluate_policy` returned for the chosen profile and constraints; its echoed task is `mask_pii` of the request's task, so it holds no e-mail or phone match; its output line holds the first 20 masked characters; its validation is null exactly when no truthy schema is given, and otherwise lists name and email, is ok exactly when there are no errors, and carries the single message of a validation error |
| `Router.ProfileName` | src/mcp_router/api/main.py:83 | the profile evaluated is never empty: it is the request's profile when that is a non-empty string, and "fast-cheap-safe" otherwise |
| `Router.SchemaOf` | src/mcp_router/api/main.py:86-89 | the schema is the metadata's "schema" value whenever the metadata holds that key, and null whenever it is not that value |
| `Router.OutputShape` | src/mcp_router/api/main.py:112-113 | the output line is "(stub) Routed '", then the first 20 characters of the masked task, then "...' to openai:gpt-4o-mini" |
| `Router.RouteFailsIff` | src/mcp_router/api/main.py:76-93 | `route` raises exactly when a rule of the chosen profile compares a null constraint, or the validator raises a schema error on a truthy schema; a failed validation returns normally |
| `Router.MissingConstraintsRouteAsDefaults` | src/mcp_router/api/main.py:76 | omitted constraints give the same response as the defaults |
| `Router.MissingProfileIsDefault` | src/mcp_router/api/main.py:83 | an omitted or empty profile name gives the same response as "fast-cheap-safe" |
| `Router.OnlyMaskedTaskMatters` | src/mcp_router/api/main.py:79-114 | two tasks that mask alike give the same response, so the raw task reaches the response only through its masked form |
| `Router.NoSchemaNoValidation` | src/mcp_router/api/main.py:86-98 | without a truthy schema the validator is never consulted |
| `Router.EchoHoldsNoAddress` | src/mcp_router/api/main.py:80-114 | the echoed masked task contains no e-mail address |

## Left out

- Python classifies `\d`, `\s`, `\w` and `(?i)` over all of Unicode. The model
  classifies ASCII characters only: `\s` is ASCII white space plus
  U+001C..U+001F, and case folding is ASCII lower-casing. Other Unicode digits,
  letters and spaces are left out, and so is case folding such as the Kelvin
  sign matching `k`.
- Denylist.CheckDenylist: the identifiers are compared by their pattern text.
  The compiled `re.Pattern` objects are not modelled.
- Costs.EstimateCostCents: the result is exact; the binary floating-point
  rounding of the Python arithmetic is not modelled.
- Policy.EvaluatePolicy: rules are dictionaries whose `then` and `default`
  values are lists of strings. Other YAML shapes are not modelled. A string
  there is searched by substring or joined character by character in Python. A
  rule that is not a dictionary is also left out.
- Policy.EvaluatePolicy: `budget_cents` is a Dafny `real`, so the non-finite
  floats that JSON decoding and the request model accept (NaN, +inf, -inf) are
  not modelled. In Python `nan <= 3` is false and `-inf <= 3` is true.
- Policy.EvaluatePolicy: the policy document is a parameter. `load_policy`,
  the YAML file and its parsing are not part of this model.
- Router.Route: the fixed metrics block and the trace id of the response are
  constants and are not modelled. The unused `inputs` field is also left out.
- Router.Route: a JSON number is a Dafny `real`, so NaN and the infinities
  that Python's `json` accepts are not modelled. A NaN schema is truthy in
  Python.
- Router.Route: the JSON-Schema library is a parameter that gives the verdict,
  so `jsonschema` itself is not modelled. Any exception the library raises for
  an unusable schema is `BadSchema`.
- The FastAPI and pydantic plumbing is not modelled: the route decorators,
  request parsing and its type coercion, `/health` and `/debug/policy`. A
  constraints object is always truthy in `route`, so `route` always passes one.
- The adapters, the evaluation client, and the `app/` package are not part of
  this model. These are network calls, file I/O and placeholders.
- "The input text is not modified" is not stated as a separate property. It
  holds by construction, because every function here is pure.
