# SBFspot MQTT discovery extractor — a verified model

`extract.js` is a small Node.js script for the SBFspot Home Assistant add-on. It works in four steps:

1. It reads the add-on's `KEY=value` configuration file.
2. It subscribes to the configured `MQTT_Topic`, where each templated segment becomes the wildcard `+`. It takes the first message that arrives and merges that JSON object into its `globals`, together with the topic the message arrived on.
3. It walks the add-on's shell-script sensor template line by line:
   - variable assignments such as `value='Inverter'` or `id=…` accumulate into device records;
   - each `/usr/bin/mosquitto_pub … -t TOPIC … -m "…}"` line attaches a topic and a Home Assistant discovery payload to the current device, with `$key` placeholders filled in from the globals and the device's variables.
4. It keeps only the devices whose name matches an entry of `MQTT_Data`, and publishes their discovery configs.

This project models that text processing in Dafny and proves what it does.

Files and modules:

- `js_string.dfy` (`JsString`): the ECMAScript string operations the script relies on:
  - the `\s` class and `trim`;
  - `indexOf`;
  - `replaceAll` with a string pattern, including the `$$`, `$&`, `` $` `` and `$'` patterns of the replacement text;
  - `split` and `join`.
- `js_object.dfy` (`JsObject`): a plain object with ordered keys. It models:
  - property assignment;
  - `for…in` order, where array-index keys come first in ascending order and the other keys follow in insertion order;
  - object spread (`{ ...a, ...b }`).
- `config_file.dfy` (`ConfigFile`): the `^([^#=]+)=(.+)` line rule of `readConfig` and the configuration it builds.
- `devices.dfy` (`Devices`): device records and the parser state (`device`, `devices`).
- `variables.dfy` (`TemplateVariables`): `matchVariables`. This covers the assignment regular expression, the four early returns, opening a new device on `value=` lines, and the `ts` override read through `$(bashio::config '…')`.
- `publish.dfy` (`PublishCommand`): `matchConfig`. It covers:
  - the publish regular expression, with its backtracking order worked out by hand;
  - the removal of the outer `"'…'"` quotes and the add-on-name substitution;
  - the key-by-key placeholder substitution;
  - the resulting topic and config.
- `broker_info.dfy` (`BrokerInfo`): the subscription topic rewrite `/[^/]+{[^}]+}/g → +`, the merge of the received message into `globals`, and the plant-name and timestamp-format globals.
- `device_filter.dfy` (`DeviceFilter`): the `MQTT_Data` name filter.
- `template.dfy` (`TemplateParser`): the per-line driver, `matchVariables` then `matchConfig` on every template line, as a fold over the lines.
- `extractor.dfy` (`Extraction`): covers the script's imperative side.
  - The class `Extractor` holds the module-level state (`config`, `globals`, `device`, `devices`). Its methods are the script's functions, written with the same loops and field updates, and each is proved equal to the functional model above.
  - `Run` is the top-level sequence.

Every regular expression is written out as a scanner, together with a declarative predicate for "the expression matches here". A scanner's contract says that it returns the match a backtracking engine finds first. For the publish line, that is the last workable `-t` (the `.*` before it is greedy), and then the longest workable topic.

Points where the behaviour is easy to misread:

- The last device is never published. A device is appended to `devices` only when the next `value=` line opens another device. The template's final device therefore stays in progress and is dropped (`TemplateParser.LastDeviceDropped`, `TemplateParser.SingleDeviceDropped`). The model keeps this behaviour. Whether the template's authors intended it is an open question, so it is not filed as a finding.
- A placeholder segment with nothing before its brace is not rewritten. One might expect a subscription topic such as `site/{id}/state` to become `site/+/state`. The code's expression needs at least one character other than `/` before the `{`, so `{id}` stays as it is. The model follows the code (`BrokerInfo.RewriteKeepsBareBraces`, `BrokerInfo.RewriteBareExample`).
- Substitution order matters. Keys are substituted one after another, in `for…in` order, so a key that is a prefix of another key can capture its placeholder (`PublishCommand.SubstitutionOrderMatters`).
- The state topic is always the arrival topic. After the merge, `MQTT_Topic` is the topic the message arrived on, and every published config carries it as `state_topic`, whatever its payload said (`Extraction.PublishedDevices`).
- Failures are explicit. The model returns `None` at three places where the script throws:
  - a publish line before any device exists;
  - `MQTT_Topic` missing from the configuration;
  - `MQTT_Data` missing from the configuration.

  The script can throw at further places that the model does not follow: an `MQTT_Data` entry that is not a valid regular expression, and a payload that `JSON.parse` rejects or that does not decode to an object. These are listed under "Left out".

## Model

| member | source | states |
|---|---|---|
| ConfigFile.SplitIndex | extract.js:92 | The expression `^([^#=]+)=(.+)` places its `=` at `p` exactly when the returned index is `p`. This holds when the first `#` or `=` of the line is an `=` at `p ≥ 1`, followed by a character that is not a line terminator. No other line matches. |
| ConfigFile.ParseConfigLine | extract.js:92-99 | A line yields a setting if and only if it matches and the trimmed text before the `=` is non-empty. The key is that trimmed text. The value is the trimmed rest of the line, `#` text included, since there is no comment stripping. |
| ConfigFile.LoadLastWins | extract.js:91-101 | After the loop, a key holds the value from the last line that stores it. Later lines that store other keys do not touch it. |
| ConfigFile.LoadUntouched | extract.js:91-101 | A key that no line stores keeps its earlier presence and value. |
| ConfigFile.LoadKeepsKeys | extract.js:91-101 | The loop never removes a key. |
| Extraction.Extractor.ReadConfig | extract.js:86-103 | The line loop leaves `config` equal to `Load(old config, lines)` and changes no other state. |
| JsString.TrimShape | extract.js:96-97 | `trim` returns the input with its leading and trailing white space removed. The result neither starts nor ends with white space. |
| JsString.SplitJoin | extract.js:150 | `split` cuts the text into pieces, none of which contains the separator. Joining the pieces with the separator gives back the input. |
| JsString.ReplaceAllIsSplitJoin | extract.js:74-75 | With a replacement text free of `$`, `replaceAll` equals `split` on the pattern followed by `join` with the replacement. Every occurrence is replaced, leftmost first, without overlaps. |
| JsString.ReplaceAllSelf | extract.js:74-75 | Replacing a `$`-free pattern by itself changes nothing. |
| JsString.ReplaceAllAbsent | extract.js:74-75 | A text that does not contain the pattern comes back unchanged, whatever the replacement. |
| JsObject.Set | extract.js:55 | Assigning a property gives the key the new value. An existing key keeps its position. A new key is appended at the end. |
| JsObject.SetValid | extract.js:55 | Assignment keeps the keys distinct and in step with the values. |
| JsObject.EnumerateOrder | extract.js:71 | `for…in` order is a permutation of the own keys, without repeats when the keys are distinct. Array-index keys come before all others, in ascending numeric order. The other keys keep their insertion order. |
| JsObject.SpreadShape | extract.js:70 | `{ ...a, ...b }` holds `a`'s values overridden by `b`'s. Its keys are `a`'s in enumeration order, then `b`'s keys that `a` lacks, in `b`'s enumeration order. |
| JsObject.CloneShape | extract.js:38 | `{ ...o }` has the same values as `o`, with its keys in `o`'s enumeration order. |
| TemplateVariables.ParseAssignmentMatches | extract.js:22-27 | The expression `^\s*([a-z0-9_]+)='?([^'"#]*)'?` with the `i` flag matches if and only if the line is optional white space, an identifier, then `=`. The key is that identifier. The value is the trimmed longest run without quotes or `#` after one optional opening quote. |
| TemplateVariables.AssignmentOfParts | extract.js:22-27 | Suppose a line is built from white space, a key, `=`, an optional quote, value characters, and a rest that does not continue the value. Then the line parses to that key and the trimmed value characters. |
| TemplateVariables.BashioSearch | extract.js:44-45 | Finds the leftmost occurrence of `$(bashio::config` followed by white space and `'`, with at least one option-name character when one is required. It reports none when there is no occurrence. |
| TemplateVariables.OptionNameShape | extract.js:45 | The captured option name is non-empty and free of quotes. When there is no capture, it is the text `undefined`, which is the key the script then looks up. |
| TemplateVariables.OptionNameOfParts | extract.js:44-45 | Take a line with no `$` before a `$(bashio::config` call, then white space, a quote, and a non-empty name that ends at a quote or at the end of the line. Both expressions first match at that call, and the captured option name is that name. |
| TemplateVariables.TsReadsOption | extract.js:44-55 | Take a device in progress and a line `ts=` whose literal value is free of `$`, followed by such a call that names option `K`. The line stores `config[K]` under `ts` when `K` is configured with a non-empty value, and the trimmed literal otherwise. The key `ts` keeps its position, or is appended when new. The other variables, the name, topic and config, and `devices` are unchanged. |
| TemplateVariables.MatchVariablesIgnores | extract.js:22-33 | The state is unchanged in four cases: the line is no assignment; its value contains `$` or `"`; it assigns a key other than `value` before any device exists; or it is a `value` line with an empty value. |
| TemplateVariables.MatchVariablesValueLine | extract.js:35-55 | An accepted `value` line does three things. It appends the device in progress, unchanged, to `devices`. It starts a device named after the value, with no topic or config. The new device's variables are a copy of the old ones (none for the first device) with `value` set. The copy's keys are the old keys in enumeration order, with `value` appended when it was not among them. |
| TemplateVariables.MatchVariablesOtherLine | extract.js:44-55 | Any other accepted line sets its key to the stored value on the device in progress. An existing key keeps its position; a new key is appended. Every other variable, the name, the topic, the config and `devices` are unchanged. |
| Extraction.Extractor.MatchVariables | extract.js:21-56 | The method's early returns, push and field writes leave the state equal to the functional `MatchVariables`. |
| PublishCommand.ParsePublish | extract.js:59-64 | The payload capture contains no line break. |
| PublishCommand.ParsePublishMatches | extract.js:59-64 | The publish expression matches if and only if some `(-t position, topic end)` pair satisfies `PublishAt`. The captures come from the pair a backtracking engine tries first: the latest `-t`, then the longest topic. |
| PublishCommand.ScanTopicFinds | extract.js:59-60 | The topic end found satisfies `PublishAt`, and no longer topic up to the bound does. If none is found, no topic end up to the bound works. |
| PublishCommand.ScanFlagFinds | extract.js:59-60 | The `-t` position found has a matching topic, and no later `-t` up to the bound matches with any topic. If none is found, no `-t` up to the bound matches. |
| PublishCommand.CapturesShape | extract.js:59-62 | The topic capture is non-empty and free of white space. The payload capture starts at the quote after `-m`, ends with `}"`, and is at least four characters long. No `}"` later in the line could close it instead. |
| PublishCommand.StripQuotes | extract.js:66 | A payload without a `"'` … `'"` pair that encloses at least one character is unchanged. |
| PublishCommand.StripQuotesOutermost | extract.js:66 | Otherwise, the first `"'` and the last `'"` are removed and the text between them is kept. |
| PublishCommand.SubstituteStep | extract.js:71-76 | Take one key of the loop whose value is free of `$`. The payload the earlier keys left is cut at every `$key` into pieces that contain no `$key` and that rejoin with `$key` into that payload. The new payload is those pieces joined with the value. The topic is treated the same way at every `"$key"`. |
| PublishCommand.SubstituteWithoutDollar | extract.js:71-76 | A payload and topic without `$` are unchanged by the substitution loop, whatever the variables. |
| PublishCommand.SubstitutionOrderMatters | extract.js:71-76 | Take variables `id` and `id2`. Visiting `id` first turns `$id2` into `id`'s value followed by `2`. Visiting `id2` first gives `id2`'s value. |
| PublishCommand.MatchConfigIgnores | extract.js:59-64 | A line that the publish expression does not match changes nothing. |
| PublishCommand.MatchConfigWithoutDevice | extract.js:70 | A publish line before any device fails at `device.variables`. |
| PublishCommand.MatchConfigSets | extract.js:59-83 | A publish line with a device in progress sets that device's topic and config and nothing else. The config's state topic is `globals.MQTT_Topic`. The variables are the globals overridden by the device's own. Take the captures of the match a backtracking engine finds first. The payload is stripped of its outer quotes and has the add-on name resolved. Then every key's placeholders are substituted in both captures, in enumeration order. The device gets the topic that results, and a config that holds the trimmed payload. |
| Extraction.SubstituteAll | extract.js:71-76 | The `for…in` loop with its two `replaceAll` calls computes the key-by-key substitution over the merged variables in enumeration order. |
| Extraction.Extractor.MatchConfig | extract.js:58-84 | The method is false exactly when the functional `MatchConfig` fails, and then nothing has changed. Otherwise it leaves the state equal to that function's result. |
| BrokerInfo.MatchEnd | extract.js:106 | A rewrite starts at a position exactly when some `{` there has at least one character other than `/` before it and a non-empty `…}` after it. |
| BrokerInfo.RewriteSegments | extract.js:106 | Take a topic made of well-formed segments joined by `/`. The rewrite turns each `prefix{name}` segment into `+` and keeps each plain segment. |
| BrokerInfo.RewriteTemplated | extract.js:106 | A `prefix{name}` segment that ends at a `/` or at the end of the topic is one match, replaced by `+`. |
| BrokerInfo.RewritePlain | extract.js:106 | Plain text up to a `/` or the end is copied unchanged. |
| BrokerInfo.RewriteKeepsBareBraces | extract.js:106 | A topic in which every `{` is first or follows a `/` is subscribed to as it is. |
| BrokerInfo.NoBraceNoRewrite | extract.js:106 | A topic without `{` is unchanged. |
| BrokerInfo.RewriteBareExample | extract.js:106 | `site/{id}/state` is not rewritten. |
| BrokerInfo.SubscriptionTopic | extract.js:106 | A subscription topic exists exactly when `MQTT_Topic` is configured; reading a missing one throws. |
| BrokerInfo.MergeMessageShape | extract.js:116 | After `{ ...msg, ...globals, MQTT_Topic: topic }`, `MQTT_Topic` is the arrival topic. Keys already in `globals` win over the message's. Every other message key is kept. The message's keys come first, in enumeration order. |
| BrokerInfo.PlantGlobalsShape | extract.js:139-140 | `PLANTNAME` and `ts` are set to the configured `Plantname` and `DateTimeFormat`, or to `undefined` when those are missing. `MQTT_Topic` and every other global are unchanged. |
| Extraction.Extractor.ReadInfo | extract.js:105-117 | The method returns the subscription topic, or none when `MQTT_Topic` is missing. On success it replaces `globals` by the merge of the received message. |
| Extraction.Extractor.AddPlantGlobals | extract.js:139-140 | The two assignments leave `globals` equal to `PlantGlobals(old globals, config)`. |
| DeviceFilter.EnabledDevices | extract.js:150-152 | The filter has a result exactly when `MQTT_Data` is configured; splitting a missing value throws. |
| DeviceFilter.FilterMembers | extract.js:151-152 | A device is kept if and only if it is among the devices and its name is some entry followed by zero or more decimal digits. |
| DeviceFilter.FilterSubsequence | extract.js:152 | The kept devices keep their order: they form a subsequence of the devices. |
| DeviceFilter.FilterAppend | extract.js:152 | Filtering distributes over concatenation, so each device is judged on its own. |
| DeviceFilter.FilterIdempotent | extract.js:152 | Filtering twice gives the same result as filtering once. |
| DeviceFilter.SplitTwo | extract.js:150 | Two names without a comma, joined by one, split back into exactly those two names. |
| DeviceFilter.SplitDataExample | extract.js:150 | `Inverter,Battery` splits into its two names. |
| DeviceFilter.EnabledExamples | extract.js:151-152 | With the entries `Inverter` and `Battery`, `Inverter` and `Battery12` are enabled. `InverterX` and `Inv` are not. |
| Extraction.Extractor.FilterDevices | extract.js:150-152 | The method fails exactly when `MQTT_Data` is missing. Otherwise it replaces `devices` by the enabled ones. |
| TemplateParser.StepDevices | extract.js:145-148 | One line appends the device in progress to `devices` exactly when it opens a new device. Afterwards a device is in progress exactly when one was before or the line opened one. |
| TemplateParser.ParseLinesStaysFailed | extract.js:145-148 | Once a line has thrown, the run stays failed. |
| TemplateParser.ParseLinesDevices | extract.js:145-148 | `devices` only grows, keeping its prefix. It grows by one per opening line, except for the first opening line when no device was in progress at the start. |
| TemplateParser.LastDeviceDropped | extract.js:35-42 | From the initial state there are `max(0, n − 1)` devices for `n` opening lines. They are named after the first `n − 1` opening values, in order. The device still in progress is named after the last opening value. |
| TemplateParser.ParseLinesNames | extract.js:35-55 | From the initial state, the finished devices are named after the opening values in order, and a device is in progress, named after the last opening value, exactly when some line opened one. |
| TemplateParser.StepName | extract.js:35-84 | A line that opens a device leaves in progress a device named after its value. Any other line keeps the name of the device in progress. |
| TemplateParser.SingleDeviceDropped | extract.js:35-42 | A template that opens a single device yields no devices. |
| TemplateParser.ParseLinesStateTopics | extract.js:83 | Every device that has a config carries `globals.MQTT_Topic` as its state topic. |
| TemplateParser.ParseLinesValid | extract.js:35-55 | Through any lines that do not throw, the device in progress keeps distinct variable keys, in step with their values. |
| TemplateParser.StepWithoutDevice | extract.js:70 | Without a device in progress, a publish line that opens no device throws. |
| TemplateParser.PublishBeforeDeviceFails | extract.js:70 | A publish line with no opening line at or before it makes the whole run fail. |
| Extraction.Extractor.ParseTemplate | extract.js:145-148 | The loop fails exactly when the fold fails. Otherwise it leaves the state equal to the fold's result. |
| Extraction.Extractor.constructor | extract.js:14-19 | The state starts with an empty `config`, empty `globals`, no device and no devices. |
| Extraction.Run | extract.js:132-152 | The top level returns the subscription topic and the list of devices a run publishes, in order, as given by `Published`. |
| Extraction.PublishedDevices | extract.js:145-155 | Every published device has three properties. It comes from the parsed template, in order. Its name is enabled by `MQTT_Data`. Its config, when present, carries the arrival topic as state topic. |

## Left out

- MQTT connection, subscription, publishing and disconnection (extract.js:108-113, 136, 154-158) are network I/O.
  - The topic and decoded payload of the one message received are inputs of `Run`.
  - The list `Run` returns is what the publish loop sends, in that order.
  - The model does not relate the arrival topic to the wildcard subscription, since MQTT topic matching belongs to the broker.
  - The wait for that message, which never ends if no message arrives, is not modelled.
- The download of the sensor template, the file reads through `readline`, and the `existsSync` checks (extract.js:11-12, 87-89, 119-130, 142-143) are file and network I/O. Both files reach the model as sequences of lines.
- `JSON.parse` (extract.js:81-82, 114) is a foreign library.
  - The discovery config is kept as the substituted, trimmed payload text, plus the `state_topic` the script forces into it.
  - The received message is an object whose property values are held as the text that string conversion gives them, which is what `replaceAll` inserts.
- `MQTT_Host` and `MQTT_PORT` are used only to connect (extract.js:136).
- `async`/`await` sequencing is modelled as plain sequential calls. One overlap is not modelled: the downloaded template is piped to its file without being awaited (extract.js:126), so the read at extract.js:142 can see a partly written file. The model receives the template's lines complete.
- DeviceFilter.MatchesEntry treats each `MQTT_Data` entry as literal text. The script compiles each entry as a regular expression (extract.js:151), so an entry with metacharacters acts as a pattern, and an entry that is not a valid pattern, such as `Inv(`, throws. Entries are also not trimmed, so `Inverter, Battery` enables ` Battery` with its leading space.
- JsObject.Object models a plain object without a prototype. Special keys such as `__proto__` are treated as ordinary keys.
- ConfigFile.Config is a map without a prototype, while the script's `config` is a plain object (extract.js:17). A `__proto__=` line is not stored by the script (extract.js:101), but the model stores it. A lookup such as `config[configKey]` (extract.js:47) also finds inherited members such as `toString`, which the model does not.
- JsString.String is a sequence of Unicode scalar values. The script's strings are UTF-16; characters outside the Basic Multilingual Plane, which a non-unicode regular expression would see as two code units, are not modelled separately.
- PublishCommand.MatchConfig: does not fail where `JSON.parse` would reject the substituted payload. The script throws there; the model attaches the text.
- PublishCommand.MatchConfig: does not fail where the twice-decoded payload is not an object, such as a number, a string or `null`. In strict mode, setting `state_topic` on it throws (extract.js:83). The model attaches the state topic.
- PublishCommand.SubstituteStep: states the split-and-join form only for values free of `$`. A value holding `$` patterns is expanded as `replaceAll` does, by `SubstituteKeys` itself.
- TemplateVariables.TsReadsOption: covers lines with no `$` before the helper call. With several calls on one line, the first one that matches is read, as `BashioSearch` states.
