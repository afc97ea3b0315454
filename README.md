# Smart Complaint System: placeholder injection and account-setup mail

This project models two pieces of the Smart Complaint System in Dafny and
proves properties of them.

**The deployment step `scripts/inject-env.js`** (module `EnvInjection`) fills
the web page `web/index.html` with deployment settings:

- If the page is missing, the run ends with exit status 1.
- Otherwise, for each of five variable names in a fixed order, every
  `{{NAME}}` token in the page is replaced by the variable's value. An unset
  or empty variable gives the empty string.
- The page is then written back to the same path.
- The file system is a `Disk` class. It holds file contents by path and logs
  every read and every write, and its methods change those fields in place.
- The substitution loop is a `while` loop proved against a fold over the
  names.
- Deleting a token can join the text around it into a new token. So the
  passes do not commute, and a second run is not always a no-op, even when
  no value contains braces. `PassOrderMatters` and `RerunNotIdempotent` give
  pages that show this. A run whose output has no `{{` is a fixed point
  (`RerunWithoutBraces`).

**The global replace `text.replace(new RegExp(token, 'g'), value)`** (module
`JsReplace`) is modelled as JavaScript defines it:

- The scan runs left to right, finds non-overlapping matches and resumes after
  each one.
- The value passes through the GetSubstitution step of ECMA-262, which expands
  `$$`, `$&`, `` $` `` and `$'`.
- A literal reference is checked against the scan:
  - `Split` returns the gaps between occurrences and `Join` glues them back
    together.
  - `IsLeftmostSplit` is an independent characterisation of a leftmost split.

**The mail service `email-server/server.js`** (module `EmailServer`):

- `POST /send-email` turns a request record into one mail:
  - the fixed sender;
  - the request's recipient;
  - a subject carrying the request's correlation id;
  - an HTML body and a plain-text body.
- It hands that mail to the transport and turns the outcome into an HTTP
  reply: 200 with the message id, or 500 with the error message.
- `GET /health` answers with a fixed status.
- Request fields are JavaScript values:
  - `Render` is what a template literal makes of a value.
  - `Truthy` is what a `? :` test decides about it.
- Each body is a sequence of fixed texts and holes, where a hole is an
  interpolated field. Its text is the flattened sequence.
- The mail transport is a function parameter of `Serve`.

## Model

| member | source | states |
|---|---|---|
| EnvInjection.Placeholder | scripts/inject-env.js:30 | the token for a name is `{{`, the name and `}}`: four characters longer than the name |
| EnvInjection.TokenNameOfPlaceholder | scripts/inject-env.js:30 | the name can be read back out of its token |
| EnvInjection.PlaceholderInjective | scripts/inject-env.js:30 | distinct variable names have distinct tokens, so no pass replaces another variable's token |
| EnvInjection.EnvValue | scripts/inject-env.js:31 | the value used is the variable's value when set, and the empty string when unset (an empty value also gives "") |
| EnvInjection.Substitute | scripts/inject-env.js:29-33 | the loop's result is the page after one replace-all pass per name, in list order, each pass applied to the previous result |
| EnvInjection.InjectedInListOrder | scripts/inject-env.js:11-17 | the passes are exactly SUPABASE_URL, SUPABASE_ANON_KEY, SUPABASE_SERVICE_KEY, SMTP_EMAIL, SMTP_PASSWORD, in that order |
| EnvInjection.InjectedWithoutBraces | scripts/inject-env.js:29-33 | a page containing no `{{` comes out of any sequence of passes unchanged |
| EnvInjection.StepVerbatim | scripts/inject-env.js:32 | a value without `$` replaces every token verbatim and leaves the text between tokens alone; the page's length changes by the value's length minus the token's length per token |
| EnvInjection.StepUnset | scripts/inject-env.js:31-32 | an unset variable's pass deletes each of its tokens and nothing else; the page shrinks by the name's length plus four per token |
| EnvInjection.OnlyEmailPass | scripts/inject-env.js:11-17 | with no variable set, a page without `U` (in every SUPABASE token) and without `W` (in the SMTP_PASSWORD token) is changed by the SMTP_EMAIL pass alone |
| EnvInjection.EmailPassInsideBraces | scripts/inject-env.js:30-32 | with SMTP_EMAIL unset, deleting its token right after `{{` joins those braces to the text that follows, provided that text holds no SMTP_EMAIL token of its own |
| EnvInjection.EmailPassOnNestedToken | scripts/inject-env.js:30-32 | deleting the token inside `{{{{SMTP_EMAIL}}SMTP_EMAIL}}` closes the outer braces around the name into a new token |
| EnvInjection.RerunNotIdempotent | scripts/inject-env.js:29-35 | running the injection twice is not always the same as running it once, even with no variable set: the nested page gives a token after one run and the empty page after two |
| EnvInjection.NoPasswordTokenInNestedPage | scripts/inject-env.js:30-32 | `{{{{SMTP_EMAIL}}SMTP_PASSWORD}}` holds no SMTP_PASSWORD token before any pass runs |
| EnvInjection.PassOrderMatters | scripts/inject-env.js:11-17 | the order of the passes matters even with no variable set: on `{{{{SMTP_EMAIL}}SMTP_PASSWORD}}`, SMTP_EMAIL then SMTP_PASSWORD gives the empty page, while the reverse order leaves an SMTP_PASSWORD token |
| EnvInjection.RerunWithoutBraces | scripts/inject-env.js:29-35 | a run whose output contains no `{{` is a fixed point: running it again changes nothing |
| EnvInjection.StepOfLoneToken | scripts/inject-env.js:32 | a page that is one token becomes the value after `$`-pattern expansion, with the match as `$&` and empty text before and after |
| EnvInjection.DollarAmpersandKeepsToken | scripts/inject-env.js:31-32 | a variable whose value is `$&` writes its own token back, so that token is still in the page after its pass |
| EnvInjection.Disk.Exists | scripts/inject-env.js:21 | reports true exactly when a file is stored at the path |
| EnvInjection.Disk.ReadFile | scripts/inject-env.js:26 | returns the stored contents and logs one read of the path |
| EnvInjection.Disk.WriteFile | scripts/inject-env.js:35 | stores the text at the path, creating or overwriting the file, and logs the write; other files are unchanged |
| EnvInjection.Run | scripts/inject-env.js:19-35 | without the page: exit status 1, with no read, no write and no file changed. With the page: status 0, one read and one write of the same path, containing the old contents after all five passes |
| JsReplace.SubstitutionVerbatim | scripts/inject-env.js:32 | a replacement with no `$` is inserted exactly as it is |
| JsReplace.DollarPatterns | scripts/inject-env.js:32 | `$$` inserts `$`, `$&` the matched text, `` $` `` the text before the match and `$'` the text after it |
| JsReplace.SubstitutionOfEscape | scripts/inject-env.js:32 | a value with every `$` doubled comes out of the expansion as the value, whatever it contains |
| JsReplace.SplitIsLeftmost | scripts/inject-env.js:32 | each gap ends at the leftmost occurrence of the token in what is left of the text, and the last gap contains no occurrence |
| JsReplace.LeftmostSplitUnique | scripts/inject-env.js:32 | a text has only one leftmost split |
| JsReplace.LeftmostSplitJoins | scripts/inject-env.js:32 | a leftmost split, glued with the token, gives back the text |
| JsReplace.SplitJoin | scripts/inject-env.js:32 | gluing the gaps with the token restores the text (replacing a token by itself is the identity) |
| JsReplace.SplitCount | scripts/inject-env.js:32 | there is one more gap than there are occurrences found |
| JsReplace.CountZero | scripts/inject-env.js:32 | the scan finds no occurrence exactly when the token occurs nowhere in the text |
| JsReplace.ReplaceFromLiteral | scripts/inject-env.js:32 | from any index on, the scan with a `$`-free value is the gaps of the rest glued with the value |
| JsReplace.ReplaceAllLiteral | scripts/inject-env.js:32 | the global replace with a `$`-free value is the leftmost gaps glued with the value |
| JsReplace.ReplaceFromAbsent | scripts/inject-env.js:32 | with no occurrence at or after an index, the scan copies the rest of the text |
| JsReplace.ReplaceAllAbsent | scripts/inject-env.js:32 | a token that does not occur leaves the text unchanged, whatever the value |
| JsReplace.ReplaceAllLength | scripts/inject-env.js:32 | the length changes by the value's length minus the token's length, once per occurrence found |
| JsReplace.ReplaceAllBySelf | scripts/inject-env.js:32 | replacing a `$`-free token by itself changes nothing |
| EmailServer.NatDigits | email-server/server.js:39 | a non-negative safe integer renders as at least one decimal digit and nothing else, with no leading zero unless the number is 0 |
| EmailServer.DigitsRoundTrip | email-server/server.js:39 | reading the rendered digits back gives the number |
| EmailServer.TruthyRender | email-server/server.js:47-48 | a field that fails the `? :` test renders as `undefined`, `null`, `false`, `0` or the empty string; a field that passes never renders empty |
| EmailServer.FieldLine | email-server/server.js:39-48 | a line's text is the text before the field, the rendered field and the text after it; the line interpolates exactly that one field |
| EmailServer.CorrelationIdIff | email-server/server.js:70 | a subject carries a given id exactly when it is the fixed prefix, the id and `)` (both directions) |
| EmailServer.Compose | email-server/server.js:67-91 | the mail is from the fixed sender, to the request's recipient, its subject carries the rendered `uniqueId`, and its HTML and text parts are the two bodies built from the request |
| EmailServer.HtmlHoles | email-server/server.js:26-64 | the HTML body interpolates name, role, username and password, then Batch and Student ID only when truthy, in that order, with their rendered values |
| EmailServer.TextHoles | email-server/server.js:72-90 | the text body interpolates the same fields, in the same order, under the same conditions |
| EmailServer.BodiesAgree | email-server/server.js:26-90 | both bodies interpolate the same fields with the same values, so they make the same include-or-omit decision for each optional line |
| EmailServer.OptionalFieldCounts | email-server/server.js:45-48 | each body interpolates Batch once when it is truthy and never otherwise, the same for Student ID, and each required field exactly once |
| EmailServer.HtmlShowsFields | email-server/server.js:39-46 | the HTML body contains the greeting, role, email and password lines, each with its value unescaped |
| EmailServer.HtmlShowsOptionalFields | email-server/server.js:47-48 | a truthy Batch or Student ID appears in its labelled paragraph of the HTML body |
| EmailServer.TextShowsFields | email-server/server.js:73-79 | the text body contains the greeting, role, email and password lines, each with its value |
| EmailServer.TextShowsOptionalFields | email-server/server.js:80-81 | a truthy Batch or Student ID appears in its labelled line of the text body |
| EmailServer.HtmlOptionalSlots | email-server/server.js:47-48 | each optional slot of the HTML body is its labelled paragraph when its own field is truthy, and empty otherwise, whatever the other field holds |
| EmailServer.TextOptionalSlots | email-server/server.js:80-81 | each optional slot of the text body is its labelled line when its own field is truthy, and empty otherwise, whatever the other field holds |
| EmailServer.OptionalLinesInText | email-server/server.js:79-90 | from the password line on, the text body holds each optional line exactly when its field is truthy, independently of the other, and keeps the template's line break after each slot |
| EmailServer.OptionalLinesInHtml | email-server/server.js:46-51 | the same for the HTML body, from the password paragraph on |
| EmailServer.OmittedLinesInText | email-server/server.js:79-90 | with both optional fields falsy, the password line is followed by bare line breaks and then the closing text: an omitted line leaves its line break behind |
| EmailServer.OmittedLinesInHtml | email-server/server.js:46-51 | the same for the HTML body: the password paragraph, three line breaks, then the rest of the template |
| EmailServer.FalsyFieldsInterchangeable | email-server/server.js:47-48 | which falsy value an optional field holds (absent, null, false, 0 or "") makes no difference to the mail |
| EmailServer.Respond | email-server/server.js:94-101 | the reply has status 200 exactly when the transport delivered the mail, and 500 exactly when it failed |
| EmailServer.RespondRoundTrip | email-server/server.js:97-101 | a reply reports exactly the transport's outcome: the message id on success, the error message on failure |
| EmailServer.ServeSendEmail | email-server/server.js:21-103 | the send route gives the transport exactly the composed mail and reports the transport's own outcome |
| EmailServer.HealthIgnoresTransport | email-server/server.js:106-108 | the health route sends nothing and always answers 200 with status "OK" and "Email server is running" |

## Left out

- Step: treats `new RegExp(placeholder, 'g')` as a literal search for the token. The regular-expression parser reads `{{NAME}}` as literal characters for these five names, but that parser is not modelled.
- EnvInjection.Run: the path is the constant `web/index.html`, not `path.join(__dirname, '../web/index.html')`. File-system errors on read or write, which would throw and end the process, are not modelled. The console messages are not modelled, and the exit status 0 stands for the process ending normally.
- The process environment is a map from names to strings, passed as a parameter.
- Html: the HTML body leaves out the indentation and `style` attributes of the markup. It keeps the element structure, the line breaks between elements and every interpolated field, so statements about the HTML text are about that reduced markup. The plain-text body is modelled character for character.
- Render: numbers other than integers, arrays and objects are not among the field values. Their JavaScript string forms (such as `1.5`, `a,b`, `[object Object]`) are not modelled.
- Render: an integer field lies between -2^53 and 2^53, the integers a JSON number holds exactly. `JSON.parse` rounds a larger integer to a nearby double, and from 10^21 on JavaScript writes numbers in exponent form (`1e+21`); neither is modelled. The number -0 is not a separate value: it renders as `0`, like `Integer(0)`.
- InjectedWithoutBraces: `readFileSync` and `writeFileSync` with `utf8` decode the page and encode it again. Invalid UTF-8 in the file is replaced by U+FFFD on reading, so the page is the decoded text, and a run can change bytes even where no token occurs. The decoding is not modelled.
- StepVerbatim, ReplaceAllLength: lengths count Unicode scalar values, while JavaScript counts UTF-16 code units. The length statements agree with JavaScript only for text in the Basic Multilingual Plane; outside it, each character counts as two code units in JavaScript.
- EmailServer.Serve: Express routing, JSON body parsing, CORS, the port and `listen` are not modelled. The transport is a function parameter: `nodemailer`, its `gmail` service and the account credentials are not modelled. A missing or non-object request body is not modelled either; destructuring it would throw and land in the 500 branch.
- Respond: an error without a `message` is not modelled, since its JSON reply would omit the `error` key. The failure message is a string.
- The console logging of both programs is not modelled.

