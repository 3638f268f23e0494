# apothecary in Dafny

This project models the core of apothecary, a Ruby tool that describes HTTP
requests as YAML "actions", fills them in from variables and sends them in a
session. The modelled core is:

- the variable scopes of `Apothecary::Context`. A scope has local variables
  and an ordered list of parent scopes, and a lookup searches them
  depth-first.
- the `{{a.b.c}}` template engine that contexts and environments share. A
  string that is exactly one template yields the raw value. Any other string
  has each reference rendered in place, and hashes and arrays are walked.
- `Apothecary::Environment`: a flat variable hash. It builds a URI from a
  hash or a string and resolves it against an optional `base_url` with the
  case split of Ruby's `URI#merge`; a relative path is resolved as in
  section 5.2 of RFC 3986.
- `Apothecary::Action`: a title, plus interpolation of every field except
  `outputs`, `title` and `action_name`.
- `Apothecary::Request`: the method and header defaults, and the
  `Content-Type` default of `send!`. Also the parse of the response header
  text, `content_length`, the JSON test, the dump-file names and the
  extraction of declared outputs from a response.
- `Apothecary::Session`: a class whose request log only grows. A request is
  built from a stored action or from inline data and numbered `count + 1`.
  It is sent through an abstract transport, appended to the log, and the
  announced content lengths are summed.
- `Apothecary::Project`: the naming rules from action, flow and environment
  names to files, the sorted action names, the lookups that read those
  files, and the option defaults of `create_session`.

Values are a JSON/YAML-like union (`Values.Value`). The project's files are
a map from a path to the parsed document: a path is in the map exactly when
the file exists. A Ruby `raise` becomes a `Failure` carrying the message.
The transport is replaced by parameters: `send!` receives the header text
and the body the transport returned, and it returns the transmission it
asked for (verb, URI, headers, credentials and JSON body).

Modules follow the source files:
- `Contexts`, `Environments`, `Actions`, `Requests`, `Sessions` and
  `Projects` follow the source files of those names.
- `Templates` holds the engine that `context.rb` and `environment.rb` both
  spell out.
- `Uris` and `Headers` model the library behaviour that the core leans on.
- `RubyText`, `FilePaths`, `Values` and `Wrappers` hold the Ruby `String`
  and `File` semantics used on the way.

Where the code and its documentation disagree, the model follows the code:
`Session.new` takes two arguments (`lib/apothecary/session.rb:7-11`), while
`project.rb` calls it with five.

## Model

| member | source | states |
|---|---|---|
| Contexts.NewScope | lib/apothecary/context.rb:4-7 | the parents are kept; a hash gives the local variables, and nil or false give none. Any other value gives none here, where Ruby keeps it and every lookup raises (see "Left out") |
| Contexts.Resolve | lib/apothecary/context.rb:46-56 | a local definition is returned and shadows every parent; a name no scope of the tree defines resolves to nil |
| Contexts.ResolveFrom | lib/apothecary/context.rb:50-52 | the search through the parents from position i is nil when no parent from i on has the name |
| Contexts.HasVariableIffSomeScopeDefines | lib/apothecary/context.rb:12-14 | `has_variable?` holds exactly when some scope of the tree, at any depth, defines the name |
| Contexts.ResolveIsDepthFirst | lib/apothecary/context.rb:46-56 | `resolve` yields the value of the first scope that defines the name, in the order: the scope itself, then each parent's whole tree in list order |
| Contexts.ResolveFromParents | lib/apothecary/context.rb:50-52 | the search through the parents depends on the parent list alone, not on the locals |
| Contexts.EvaluateJoinedWords | lib/apothecary/context.rb:18-21 | a dotted path `w0.w1…wn` resolves `w0` in the scope and then indexes the value by `w1`…`wn` in order |
| Contexts.UnknownRootIsNil | lib/apothecary/context.rb:18-21 | a path whose first word no scope defines evaluates to nil |
| Contexts.UnknownReferenceVanishes | lib/apothecary/context.rb:30-31 | a reference to an unknown variable inside literal text is replaced by the empty string |
| Values.Walk | lib/apothecary/context.rb:19-20 | indexing along a path keeps nil once nil is reached, and indexing a value that is neither hash nor string gives nil |
| Templates.TemplateAt | lib/apothecary/context.rb:24 | a match of the template regex is `{{p}}` with p a dot-separated path of words at the start of the text |
| Templates.WholeMatchOnOneLine | lib/apothecary/context.rb:23 | on a string without line breaks, the whole-string regex matches exactly when the string is `{{p}}` for a valid path p, and it captures p |
| Templates.Interpolate | lib/apothecary/context.rb:26-44 | a hash keeps its key set with each value interpolated; an array keeps its length with each element interpolated; every other non-string is returned unchanged |
| Templates.WholeTemplateKeepsType | lib/apothecary/context.rb:28-29 | a string that is exactly one template yields the evaluated value itself, whatever its type |
| Templates.TemplateFreeUnchanged | lib/apothecary/context.rb:30-31 | a string in which the template regex matches nowhere is returned unchanged |
| Templates.InterpolatePieces | lib/apothecary/context.rb:30-31 | a string made of literal text and references, and not one whole template, renders each reference in place (nil as "") and keeps the literal text |
| Templates.SubstitutePieces | lib/apothecary/context.rb:31 | `gsub` over literal text and references equals the concatenation of the texts and the rendered references |
| Templates.SubstituteReference | lib/apothecary/context.rb:31 | a leading `{{p}}` is replaced by the rendering of p's value, and the scan goes on after it |
| Templates.SubstituteLiteral | lib/apothecary/context.rb:31 | text without `{` passes through `gsub` unchanged before the rest is processed |
| Templates.InterpolateCongruent | lib/apothecary/context.rb:26-44 | two evaluators that agree on every valid path interpolate every value alike |
| Templates.UnmentionedUnchanged | lib/apothecary/context.rb:26-44 | a value in which no string holds a template is returned unchanged, whatever the evaluator |
| Templates.PathSegments | lib/apothecary/context.rb:19 | `split('.')` of a captured path gives its non-empty list of words, which joined by dots give the path back |
| Templates.JoinedWordsArePath | lib/apothecary/context.rb:23-24 | words joined by single dots form a path that the template regex captures |
| Environments.InterpolatesLikeRootContext | lib/apothecary/environment.rb:64-89 | an environment interpolates every value exactly as a context holding its variables and no parents |
| Environments.UndefinedNameIsNil | lib/apothecary/environment.rb:64-66 | a one-segment path naming no variable evaluates to nil |
| Environments.NoBaseUrl | lib/apothecary/environment.rb:10-12 | without a `base_url` variable, `evaluate('base_url')` is nil and there is no base URL |
| Environments.UriFromHash | lib/apothecary/environment.rb:14-37 | the host comes from the hash. Without a host, the port is dropped. With a host but no scheme, the scheme becomes `https`. An explicit scheme and a given path are kept. Without a host or string scheme the URI is relative, with no query or fragment |
| Environments.UriFromHashIsParsedText | lib/apothecary/environment.rb:14-37 | the URI built from a hash of well-formed components is the one its text parses to |
| Environments.UriFromValue | lib/apothecary/environment.rb:39-47 | a URI is returned as it is; a hash is built with `URI::Generic.build` (`UriFromHash`); a string is parsed (`ParseUri`); anything else gives nil |
| Environments.ResolveUri | lib/apothecary/environment.rb:49-58 | without a base URL the converted URI stands unchanged. With one, the URI is joined onto it. It is an error when nothing converts or when both are relative. An absolute base gives an absolute result |
| Environments.NoBaseKeepsRelative | lib/apothecary/environment.rb:49-58 | with no `base_url`, a string resolves to its parse, even when relative |
| Uris.ParseOfText | lib/apothecary/environment.rb:45 | parsing the text of a well-formed URI gives back its components, as in Appendix B of RFC 3986 |
| Uris.Join | lib/apothecary/environment.rb:54 | as `URI#merge`: an absolute reference is returned unchanged, and two relative URIs are an error. Against an absolute base the result keeps the base's scheme; its host and its port are each the reference's when it has one, else the base's. A reference that is at most a fragment gives the base with its fragment replaced only when the reference has one. Any other reference gives its own query and fragment, and its own path when it names a host or port |
| Uris.ResolvedPathIsAbsolute | lib/apothecary/environment.rb:54 | a relative reference with a path, resolved against an absolute base, gets a path that starts with `/` |
| Uris.JoinBelowDirectory | lib/apothecary/environment.rb:54 | a plain relative path joined onto a base whose path ends in `/` is appended to that path (`…/v2/` + `messages/unread`) |
| Uris.RemoveDotSegmentsOfClean | lib/apothecary/environment.rb:54 | removal of dot segments, section 5.2.4 of RFC 3986, leaves a path without dot segments unchanged |
| Uris.RemoveDotSegmentsKeepsRoot | lib/apothecary/environment.rb:54 | removal of dot segments keeps a rooted path rooted |
| Actions.Title | lib/apothecary/action.rb:10-12 | the title is `data['title']` when that is truthy, else `data['action_name']`, nil when absent |
| Actions.InterpolateData | lib/apothecary/action.rb:16-21 | the result has the input's key set. `outputs`, `title` and `action_name` are kept as they were. Every other key maps to the interpolation of its original value |
| Actions.BuildRequestData | lib/apothecary/action.rb:23-25 | the request data has the action's keys, keeps the uninterpolated fields and leaves the title unchanged |
| Requests.RequestMethod | lib/apothecary/request.rb:23-25 | a string `method` upper-cased; `GET` when absent, nil or false; never a lower-case letter |
| Requests.RequestHeaders | lib/apothecary/request.rb:27-29 | the `headers` field when truthy, else an empty hash; never nil |
| Requests.AddDefaultContentType | lib/apothecary/request.rb:76-79 | a header hash without `Content-Type` gains `application/json`; every other entry and an existing content type are kept |
| Requests.DefaultContentTypeIdempotent | lib/apothecary/request.rb:76-79 | adding the default a second time changes nothing |
| Requests.OutgoingFields | lib/apothecary/request.rb:70-92 | `send!` raises exactly when there is a JSON body and the headers are not a hash (`has_key?` is undefined). Otherwise, field by field, the transmission holds: the verb (`request_method`); the URI; the headers, defaulted only when there is a JSON body; credentials exactly when a user name is given; and the JSON body exactly for `PUT` and `POST` |
| Requests.ExplicitContentTypeKept | lib/apothecary/request.rb:76-79 | a JSON request whose headers name a content type sends them as they are |
| Requests.DataAfterSendChanges | lib/apothecary/request.rb:76-79 | sending changes no key of the data other than `headers`, and that one only by the content type default, because the header hash is shared with the data |
| Requests.SentHeadersAreRequestHeaders | lib/apothecary/request.rb:57-79 | a JSON request with a headers hash is sent; afterwards `request_headers` are the headers that were sent, and sending again would transmit the same thing |
| Requests.DumpPath | lib/apothecary/request.rb:43-51 | a dump path exists exactly for a named request. Inline data gives none here, where Ruby's `name.gsub` raises on the hash |
| Requests.DumpPathsDiffer | lib/apothecary/request.rb:43-51 | the request dump and the response dump of one request are different files |
| Requests.DumpPathInRequestsDirectory | lib/apothecary/request.rb:43-51 | a dump file lies directly in the requests directory, named `<id>-<part>-<name with non-word characters as ->.txt` |
| RubyText.ReplaceNonWord | lib/apothecary/request.rb:44 | `gsub(/\W/, '-')` keeps word characters and turns every other character into `-`, keeping the length |
| Headers.ParseHeaderLineIff | lib/apothecary/request.rb:95 | a line yields a pair exactly when it is `name: value` with a non-space name and a non-empty value |
| Headers.HeaderMapLastWins | lib/apothecary/request.rb:95 | a name is in the header hash exactly when some line defines it, and its value comes from the last such line |
| Headers.ParseHeadersOfBlock | lib/apothecary/request.rb:94-95 | header text made of a status line and `name: value` lines, each ended by CR LF, parses to that status line and the last-wins map of the pairs |
| Headers.SplitLinesOfBlock | lib/apothecary/request.rb:94 | `split(/[\r\n]+/)` of such header text gives back its lines |
| Headers.ContentLength | lib/apothecary/request.rb:105-107 | an absent `Content-Length` gives 0 |
| Headers.ContentLengthOfDecimal | lib/apothecary/request.rb:105-107 | a `Content-Length` holding the decimal form of n reads back as n |
| RubyText.ToIOfToS | lib/apothecary/request.rb:106 | `to_i` of `to_s` of any integer is that integer |
| Requests.ResponseJson | lib/apothecary/request.rb:121-123 | the parsed body when the content type is `application/json` or ends in `+json`, nil otherwise |
| Requests.Output | lib/apothecary/request.rb:127-140 | nil exactly when `outputs` is nil or false. Any other non-hash `outputs` raises (`each` is undefined). When the response document is neither nil, false nor a hash, a definition holding a template raises (`has_key?` is undefined). Otherwise there is one entry per declared output, each interpolated in a scope whose locals are the JSON response document and whose parents are the caller's scopes |
| Requests.OutputOfPlainDefinitions | lib/apothecary/request.rb:127-140 | outputs whose definitions hold no template are the definitions themselves, whatever the response |
| Requests.OutputOfBodyField | lib/apothecary/request.rb:127-140 | an output defined as `{{field}}` is that field of a JSON response's document, with its type kept |
| Requests.OutputFallsBackToParents | lib/apothecary/request.rb:127-140 | when the document is nil, false or a hash, an output naming no field of it is resolved in the caller's scopes |
| Requests.OutputOfUnreadableDocument | lib/apothecary/request.rb:127-140 | an output `{{field}}` read from a JSON response whose document is an array or a string raises |
| Requests.Request.constructor | lib/apothecary/request.rb:15-21 | the identifier, name, URI, data and requests directory are as given, and there is no response yet |
| Requests.Request.Send | lib/apothecary/request.rb:53-97 | the request makes the transmission its data describes, or raises as `Outgoing` says. On success its data gains the shared header default, its response headers are parsed from the transport's header text, and the body is kept; when it raises, nothing changes |
| Sessions.Session.constructor | lib/apothecary/session.rb:7-11 | a session starts with no requests, its requests directory fixed, and its invariant established |
| Sessions.RequestsPathShape | lib/apothecary/session.rb:70-76 | `requests_path` is `<project>/sessions/<name>/requests` |
| Sessions.IdentifierReadsBack | lib/apothecary/session.rb:52 | the identifier given after `count` requests reads back as `count + 1` |
| Sessions.IdentifiersIncrease | lib/apothecary/session.rb:52 | later requests get larger numbers, so no two requests of a session share an identifier |
| RubyText.NatToStringInjective | lib/apothecary/session.rb:52 | distinct counts have distinct decimal forms |
| Sessions.InterpolateRequest | lib/apothecary/session.rb:36-45 | Inline data keeps its keys and is interpolated against the environment. A name is looked up among the stored actions. An unknown name is that lookup's error |
| Sessions.UnknownRequestFails | lib/apothecary/session.rb:36-45 | a name with no action file fails with `Unknown action: <name>` |
| Sessions.BuildRequest | lib/apothecary/session.rb:47-57 | A request is built only from data that interpolated. It takes the identifier `(count + 1).to_s` and the URI that `resolve_uri` gives for the interpolated data. Any error is passed on |
| Sessions.SendNew | lib/apothecary/session.rb:60-61 | a new request made from the built parts is sent once; its fields are the built ones, and its data and response are those `send!` leaves, or the data as given and no response when it raises |
| Sessions.Session.PerformRequest | lib/apothecary/session.rb:59-64 | When building fails, or sending raises, the log is unchanged and the error is returned. Otherwise exactly one new request joins the end of the log, with the next identifier, the built URI and data and the transport's response. Earlier entries stay as they were, the invariant holds, and the total grows by the new content length |
| Sessions.Session.SendAndLog | lib/apothecary/session.rb:61-63 | a request built as the next one is sent; when `send!` raises the log is unchanged, otherwise the request joins the end of the log with its fields and response and the total grows by its content length |
| Sessions.Session.Log | lib/apothecary/session.rb:63 | appending a sent request keeps the invariant and adds its content length to the total |
| Sessions.LogAppend | lib/apothecary/session.rb:63 | the log invariant survives the append of a request with the next identifier, and the total grows by its content length |
| Sessions.ReceivedAppend | lib/apothecary/session.rb:66-68 | the fold of `total_received` over one more response adds that response's content length |
| Sessions.ReceivedOfAnnounced | lib/apothecary/session.rb:66-68 | when every response announces a length, `total_received` is the sum of those lengths |
| Sessions.ReceivedOfUnannounced | lib/apothecary/session.rb:66-68 | when no response announces a length, `total_received` is 0 |
| Projects.NameOfProjectDirectory | lib/apothecary/project.rb:22-24 | a project's name is the base name of its directory |
| Projects.YamlFileName | lib/apothecary/project.rb:60-67 | the file name ends in `.yaml`; a name that already ends in it is kept, and any other gets the suffix |
| Projects.YamlSuffixOptional | lib/apothecary/project.rb:60-67 | a name and the same name with `.yaml` written out give the same file name, and the rule is idempotent |
| Projects.DocumentPathIgnoresSuffix | lib/apothecary/project.rb:60-67 | an action or a flow named with or without its `.yaml` suffix is the same file |
| Projects.PlainNameIsDefaultVariant | lib/apothecary/project.rb:136-151 | a name without `/` maps to `environments/<name>/default.yaml` |
| Projects.VariantNameSplitsAtSlash | lib/apothecary/project.rb:136-151 | `env/variant` maps to `environments/<env>/<variant>.yaml`, and a `.yaml` written in the variant is not doubled |
| Projects.VariantPathOfQualifiedName | lib/apothecary/project.rb:137-150 | `File.split` cuts `env/variant` at the slash into the environment directory and the variant |
| FilePaths.SplitOfJoin | lib/apothecary/project.rb:137 | `File.split` inverts `File.join` of a directory and a slash-free base name |
| Projects.VariablesForEnvironment | lib/apothecary/project.rb:153-160 | the variant file's document, `{}` when the file does not exist |
| Projects.StripYamlOfLine | lib/apothecary/project.rb:39 | on a one-line name, `sub(/\.yaml$/, '')` removes a trailing `.yaml` and changes nothing else |
| Projects.StripYamlOfFileName | lib/apothecary/project.rb:39 | a file written as `<name>.yaml` lists as `<name>` |
| Projects.LexTotal | lib/apothecary/project.rb:40 | any two strings are ordered one way or the other by `<=>` |
| Projects.LexTransitive | lib/apothecary/project.rb:40 | the string order is transitive |
| Projects.LexAntisymmetric | lib/apothecary/project.rb:40 | strings ordered both ways are equal |
| Projects.Insert | lib/apothecary/project.rb:40 | inserting into a sorted list keeps it sorted and adds exactly the one element |
| Projects.Sort | lib/apothecary/project.rb:40 | `sort` gives a sorted permutation of its input |
| Projects.SortedUnique | lib/apothecary/project.rb:40 | two sorted lists with the same elements are equal |
| Projects.ActionNames | lib/apothecary/project.rb:36-41 | the action names are sorted and are exactly the relative paths with `.yaml` stripped, as a multiset |
| Projects.ActionNamesUnique | lib/apothecary/project.rb:36-41 | any sorted arrangement of the stripped paths is the list of action names |
| Projects.ActionDataNamed | lib/apothecary/project.rb:43-48 | nil when the file is missing. A hash document comes back with the same entries and `action_name` set to the name. Any other document is an error |
| Projects.ActionDataNamedBang | lib/apothecary/project.rb:50-52 | a missing action is the error `Unknown action: <name>`; a found one is the data `action_data_named` gives |
| Projects.ActionNamedBang | lib/apothecary/project.rb:54-56 | the action carries `action_name` equal to the name, its title falls back to the name, and a missing action is an error |
| Projects.FlowNamed | lib/apothecary/project.rb:196-201 | a flow is found exactly when its file exists, and it is that file's document |
| Projects.FlowNamedBang | lib/apothecary/project.rb:203-205 | a flow that is missing, nil or false is the error `Unknown flow: <name>`; otherwise it is the document |
| Projects.CreateSessionOptions | lib/apothecary/project.rb:80-91 | each option is read under its string key, else its symbol key. The environments default to `[]` and the variables to `{}`, and the title has no default |
| RubyText.Upcase | lib/apothecary/request.rb:24 | `upcase` on ASCII: it keeps the length, turns each lower-case ASCII letter into its upper-case letter and changes nothing else (see "Left out") |
| RubyText.SplitOfJoin | lib/apothecary/context.rb:19 | about `SplitOn`, the split that keeps every field, empty ones included (`split('.')` drops trailing empty fields): splitting a join of separator-free fields gives back the fields |
| RubyText.JoinOfSplit | lib/apothecary/context.rb:19 | about `SplitOn`, the split that keeps every field, empty ones included: joining the fields of a split gives back the string |

## Left out

- The transport of `send!` is not modelled: curl, its debug callbacks and the dump files written to disk (`lib/apothecary/request.rb:54-68`). `Requests.Request.Send` takes the header text and the body the transport returned, and returns the transmission it asked for.
- JSON and YAML parsing and generation are not modelled: `JSON.generate`, `JSON.parse` and `YAML.load_file` are library code. Parsed documents are inputs: the project's `documents` map, and the `parsedBody` of a response.
- File-system access is not modelled: `Dir[...]`, `File.exists?`, `FileUtils.mkdir_p`, `File.expand_path` and the YAML writers. The writers are `write_action_yaml`, `write_environment_yaml`, `write_flow_yaml` and `create_environment`. File existence is membership in `documents`, and `action_names` takes the relative paths a glob found. The project path is taken as it is, already expanded.
- Listing and opening sessions, `environment_names` and `variants_of_environment` are not modelled: `open_session`, `default_session`, `session_with_environments`, `session_with_variables`, `session_names` and the `Session.new`/`save!` calls of `create_session` use methods `session.rb` does not define, or only list directories. Only the option reading of `create_session` is modelled.
- `URI(...)` is not Ruby's full URI parser: a string is decomposed as in Appendix B of RFC 3986, plus a `host[:port]` split, without Ruby's validation errors.
- `URI::Generic.build` is not modelled: its class selection and its checks are left out. A scheme's default port is not filled in, and the port kept is the one given.
- Uris.Join: an absolute reference is returned as it is, so its path does not go through dot-segment removal, as Ruby's `merge` does. A relative path is merged and its dot segments removed as in section 5.2 of RFC 3986, while Ruby's `merge_path` follows RFC 2396 and keeps a `..` that climbs above the root. A query-only reference keeps the base's path as it is. The user information of an authority is not modelled.
- Environments.UriFromHash: a `host` or `scheme` that is not a string is treated as absent, where `URI::Generic.build` would raise or convert it.
- Ruby's `to_s` of arrays and hashes (their `inspect` form) inside partial templates is the parameter `inspect`. Floating-point numbers are not part of `Values.Value`.
- Values.Walk: indexing a string by a word gives the word when it occurs in the string, as `String#[]` does. Indexing any other non-hash value gives nil, where Ruby would raise for an array or an integer.
- `session.rb` calls `project.request_named!` (`lib/apothecary/session.rb:41`) and `project.default_environment` (`lib/apothecary/session.rb:24`), and `project.rb` defines neither, so Ruby raises `NoMethodError` there. The model substitutes the lookup `action_data_named!` for the first and a constructor argument of the session for the second.
- Contexts.NewScope: a truthy value that is not a hash (an array, a string, a number, true) is kept by `Context.new`, and every lookup in that context raises because `has_key?` is undefined. The model gives it no locals; `Requests.Output` reports the raise whenever a definition holds a template. A lookup of such a context as a parent scope is not modelled.
- Requests.Output: an `outputs` array, which Ruby's `each` walks as name/definition pairs, is reported as a failure here.
- Upcase: only ASCII letters are upper-cased. Ruby's `String#upcase` also maps other letters (`"é"` to `"É"`) and can change the length (`"ß"` to `"SS"`). `Requests.RequestMethod` inherits this.
- Values.Value: a hash has string keys only, and its entries have no order. Ruby hashes keep insertion order and allow keys of any type; neither is observable in the modelled operations except the iteration order of `outputs`, which does not change the result.
- A whole-template `headers` field such as `"{{default_headers}}"` evaluates to the environment's own hash object, so the `Content-Type` that `send!` adds is written into the environment and is sent by every later request of the session. Values are not shared in the model, so this aliasing is not modelled.
- Sessions.Session.PerformRequest: it returns the transmission made, not the `requests` array that `@requests << request` returns. The log, which is that array, is stated in full.
- Requests.Request.ContentLength is only defined once a response is recorded. Before `send!` the source calls `[]` on nil and raises.
- The `||=` memoisation of `actions_path`, `sessions_path`, `directory_path` and `requests_path` is not modelled. These paths never change for an object, so they are recomputed, and the session keeps `requests_path` as a constant.
- `username`, `password` and `request_json_body` have no members of their own. They are read inside `Requests.Outgoing`: the credentials go out whenever a user name is given, and the body goes out only for `PUT` and `POST`.
- `web.rb` and `cli.rb` are not part of this model. Neither are the features that only the later specs exercise: session outputs, `save!`, `contexts`, `request_named` and the two-argument `Request.new`.
