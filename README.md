# Job-Rec recommendation handler, modelled in Dafny

Job-Rec is a small Flask service. `POST /recommend-job` takes a JSON body
describing a person (interests, strengths, weaknesses, description and an
optional name). It checks that the four required fields are present and
truthy, then builds a plain-text prompt and sends it to a chat-completion
service. It answers with the service's reply after a light sanitising pass,
or with an error. This project models the four pieces of `app.py` that decide
what comes back, and proves properties about them:

- `strings.dfy` (module `Strings`) models the Python string operations the
  handler uses:
  - `str.replace` is a left-to-right scan that replaces non-overlapping
    occurrences;
  - `str.join` and a `split` on a fixed separator;
  - `str.strip` over Python's whitespace in the Latin-1 range;
  - the subsequence relation used to say that an operation "only deletes".
- `sanitizer.dfy` (module `Sanitizer`) models `clean_output`.
- `recommend.dfy` (module `RecommendJob`) models `recommend_job`:
  - the decoded body is a map from keys to JSON values;
  - the `missing` list and its 400 message;
  - the prompt `user_msg`;
  - the mapping from the completion's outcome to the HTTP status and JSON
    body.

  The completion call is a parameter `complete` that maps the prompt to an
  outcome: either an exception text or a list of choices.

Three behaviours of `app.py` are worth knowing because they are easy to
assume otherwise:

- **The sanitiser is plain substring replacement.** `clean_output` does not
  use regular expressions: it makes three `str.replace` passes (`**`, `*`,
  two spaces before a newline) and a `strip()`. Headers, bullets and runs of
  blank lines are left alone. It is not idempotent: one pass can leave a
  fresh two-spaces-before-newline behind it
  (`Sanitizer.CleanOutputNotIdempotent`).
- **Validation uses Python truthiness and does not trim.** Among `null` and
  string values, a field counts as missing only when it is absent, `null` or
  the empty string, so a value made only of spaces is accepted
  (`RecommendJob.NonEmptyIsNotMissing`). Other falsy JSON values (`0`,
  `false`, `[]`, `{}`) also count as missing in `app.py`; the model does not
  include them (see "## Left out").
- **A blank reply is a success.** A reply made only of whitespace passes the
  handler's emptiness test. It is then stripped to nothing and returned as a
  200 with an empty recommendation (`RecommendJob.BlankChoiceSucceedsEmpty`).

## Model

| member | source | states |
|---|---|---|
| Strings.Replace | app.py:20-22 | `str.replace` with a non-empty pattern; a replacement no longer than the pattern never makes the text longer |
| Strings.ReplaceIsJoinOfSplit | app.py:20-22 | partner definition: replacing is splitting on the pattern and joining with the replacement |
| Strings.ReplaceAbsent | app.py:20-22 | replacing a pattern that does not occur leaves the text unchanged |
| Strings.ReplaceIsSubsequence | app.py:20-22 | when the replacement is a subsequence of the pattern, the result is a subsequence of the input |
| Strings.ReplaceKeepsCount | app.py:22 | a character occurring equally often in pattern and replacement keeps its count in the text |
| Strings.ReplaceCharByNothing | app.py:21 | replacing a one-character pattern by nothing deletes every occurrence of that character |
| Strings.RemoveCounts | app.py:21 | after deleting `c` no `c` is left, and every other character keeps its count |
| Strings.Join | app.py:33 | definition of `sep.join(xs)`: the pieces with one separator between neighbours; `SplitOnJoin` and `JoinSplitOn` relate it to its inverse |
| Strings.SplitOn | app.py:33 | `str.split` on a non-empty separator, the inverse used to specify the join (app.py itself never splits); there is always at least one piece |
| Strings.PiecesHaveNoSep | app.py:20-22 | no piece of a split contains the separator, so `Replace`, being a join of the split, replaces every occurrence |
| Strings.JoinSplitOn | app.py:33 | inverse of the join: joining the pieces of a split with the same separator restores the string |
| Strings.SplitOnJoin | app.py:33 | inverse of the join: when no piece contains the separator's first character, splitting a join gives back the pieces |
| Strings.StripLeft | app.py:23 | the result is a suffix of the input, the dropped prefix is all whitespace, and the result does not begin with whitespace |
| Strings.StripRight | app.py:23 | the result is a prefix of the input, the dropped suffix is all whitespace, and the result does not end with whitespace |
| Strings.Strip | app.py:23 | the result is empty or neither of its ends is whitespace |
| Strings.StripIsSlice | app.py:23 | the stripped text is a contiguous slice of the input, and what lies outside the slice is all whitespace |
| Strings.StripIdempotent | app.py:23 | stripping twice is the same as stripping once |
| Strings.StripUnchanged | app.py:23 | text whose ends are not whitespace is left as it is |
| Sanitizer.ReplacePasses | app.py:20-22 | definition of the three replacement passes in source order; `StarPassesDeleteEveryStar` and `ReplacePassesIsSubsequence` state what they do |
| Sanitizer.CleanOutput | app.py:19-23 | the cleaned text is never longer than the input, neither of its ends is whitespace, and empty text stays empty |
| Sanitizer.StarPassesDeleteEveryStar | app.py:20-21 | the `**` pass followed by the `*` pass deletes exactly every `*` |
| Sanitizer.CleanOutputReference | app.py:19-23 | `clean_output` equals a reference definition: delete every `*`, replace two spaces before a newline by a newline, then strip |
| Sanitizer.ReplacePassesIsSubsequence | app.py:20-22 | the three replacement passes only delete characters |
| Sanitizer.CleanOutputIsSubsequence | app.py:19-23 | the cleaned text is a subsequence of the input and never longer |
| Sanitizer.CleanOutputHasNoStar | app.py:19-23 | no `*` is left in the cleaned text |
| Sanitizer.CleanOutputOfPlainText | app.py:19-23 | text with no `*` and no two spaces before a newline is only stripped |
| Sanitizer.ReplacePassesKeepLineBreaks | app.py:20-22 | the replacement passes keep the number of line breaks |
| Sanitizer.CleanOutputNotIdempotent | app.py:22 | for visible non-`*` characters `a` and `b`, `a` + four spaces + newline + `b` cleans to `a` + two spaces + newline + `b`, which cleans again to `a` + newline + `b`: cleaning twice differs from cleaning once |
| RecommendJob.IsMissing | app.py:30 | definition of `not data.get(field)`: the key is absent, or its value is `null` or the empty string |
| RecommendJob.MissingAmong | app.py:30 | the comprehension over a list of fields; it reports at most as many fields as it checks |
| RecommendJob.Missing | app.py:29-30 | a name is in `missing` exactly when it is a required field and is missing |
| RecommendJob.MissingMessage | app.py:33 | definition of the 400 error text; `MissingMessageLists` states that it lists the missing fields |
| RecommendJob.MissingAmongExactly | app.py:30 | a field is reported exactly when it is among those checked and its value is absent, `null` or the empty string |
| RecommendJob.MissingAmongKeepsOrder | app.py:30 | the reported fields are a subsequence of the checked list, so they keep its order |
| RecommendJob.MissingInOrder | app.py:29-30 | `missing` is the four required fields in their fixed order, each kept exactly when it is missing |
| RecommendJob.NonEmptyIsNotMissing | app.py:30 | a non-empty string value, whitespace-only included, is not reported missing |
| RecommendJob.MissingMessageLists | app.py:32-33 | when something is missing, the error text starts with `Missing fields: `, and the remainder split on `, ` gives back the missing list |
| RecommendJob.OnlyInterestsIsRejected | app.py:29-33 | a body with only `interests` gets a 400 naming `strengths, weaknesses, description` in that order |
| RecommendJob.Render | app.py:36-40 | definition of how a JSON value is rendered inside the f-string: `null` as `None`, a string as itself |
| RecommendJob.NameOf | app.py:36 | definition of `data.get('name', 'User')`, rendered; `PromptDefaultsToUser` states the default |
| RecommendJob.BuildPrompt | app.py:35-42 | definition of `user_msg`; `PromptMentionsEveryField`, `PromptIsLines` and `PromptLinesRoundTrip` state its shape |
| RecommendJob.PromptMentionsEveryField | app.py:35-42 | the prompt starts with the name line, contains the labelled line of each required field, and ends with the instruction |
| RecommendJob.PromptDefaultsToUser | app.py:36 | without a `name` key, the prompt begins `Name: User` followed by a newline |
| RecommendJob.PromptIsLines | app.py:35-42 | the prompt is its six lines joined by line breaks |
| RecommendJob.PromptLinesRoundTrip | app.py:35-42 | when no value contains a line break, splitting the prompt on line breaks recovers its six lines |
| RecommendJob.HandleCompletion | app.py:53-62 | status 200 exactly when the first choice has non-empty content, and then the body is that content cleaned; otherwise 500 with an error; an exception gives `Groq API error` with its text as details |
| RecommendJob.NoChoiceIsServerError | app.py:53-55 | no choice, `null` content and empty content all give 500 `No response from Groq` |
| RecommendJob.BlankChoiceSucceedsEmpty | app.py:53-59 | a non-empty, whitespace-only reply gives 200 with an empty recommendation |
| RecommendJob.Recommend | app.py:26-62 | status 400 exactly when a required field is missing, with the missing-fields message; otherwise every required key is present, and the response is the completion outcome for the built prompt |

## Left out

- Flask plumbing is not modelled: routing, `jsonify`, the `ok: True` flag of the success body (implied by the `Recommendation` body), the `GET /` health route and `app.run` (app.py:1, 12, 25, 59, 65-71).
- `request.get_json(force=True)` (app.py:27) is not modelled; the model starts from a decoded JSON object. A body that cannot be decoded is rejected by Flask. A body that decodes to something other than an object (`[]`, `"x"`, `3`, `null`) reaches `data.get` at app.py:30, which raises outside the `try`, so the request ends in an unhandled 500; the model does not cover that path.
- JSON values other than `null` and strings are not modelled: numbers, booleans, lists and objects. In `app.py` the falsy ones (`0`, `false`, `[]`, `{}`) count as missing at line 30, and the others are accepted and rendered with `str()` in the prompt; neither is captured.
- Environment loading, the API key, the model name and the client object (app.py:2-10) are not modelled; they are configuration and I/O.
- The completion call (app.py:45-51) is not modelled; it becomes the parameter `complete`. The fixed system prompt (app.py:14-17) and the model name go along with each call unchanged, so the model passes only the user prompt.
- `str(e)` (app.py:62) is not modelled; the exception's text is an opaque string carried by `Raised`.
- Any exception raised while reading `response.choices[0].message.content` is assumed to be folded into `Raised` by the caller of the model. The model does not separate it from a failure of the call itself.
- Strings.Strip: `strip()` is modelled over Python's whitespace characters up to U+00FF only. Unicode whitespace above that range (U+1680, U+2000-U+200A, U+2028, U+2029, U+202F, U+205F, U+3000) is not treated as whitespace.
- Strings.Replace: requires a non-empty pattern. Python's behaviour for an empty pattern (inserting the replacement before every character and at the end, so `"abc".replace("", "-")` is `"-a-b-c-"`) is not modelled, since the handler never uses one.
