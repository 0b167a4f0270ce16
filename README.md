# cerberus2 core, modelled in Dafny

cerberus2 is an IRC bot written in PHP. This project models its core and
proves properties about the model:

- the cron scheduler (`Cron`):
  - jobs are stored under increasing ids;
  - the five fields of an expression are translated from names and expanded into value lists (`prepare`);
  - the day-of-month/day-of-week rule decides whether a job fires;
  - `run` calls the matching jobs in table order.
- the event dispatcher (`Events`):
  - the memoised catalogue of `on…` events is built from the handler files;
  - plugin subscriptions are kept per event and per priority;
  - `runPluginEvent` fans an event out, priorities 10 down to 1;
  - `__call` forwards to the built-in handler, then to the plugins, and logs any failure.
- the plugin base class (`Plugin.addEvent` / `removeEvent`).
- the lazy object cache (`Caller`): class names and class files, create-once caching, and forwarding.
- the formatters:
  - the delimiter toggle (`format`) behind `bold` and `underline`;
  - the mIRC colour-code state machine (`color`);
  - the ANSI back end (`Formatter\Console`) and the HTML back end (`Formatter\Html`), with its open-span state;
  - the older base class in `library/Formatter/Formatter.php`.
- the console output preparation (`Output\Console`):
  - the visible-character counter `count` and the length `len`;
  - `cut`, `split` and `wordwrap`;
  - `build`, which formats, then keeps, breaks or cuts text to the terminal width;
  - `prepare`.
- the bot's id and its `name=value` command-line options (`Bot`).

Code that works step by step is modelled as imperative Dafny:
- classes with `modifies` clauses;
- `while` loops with their invariants.

Each method is proved against a specification function on values. The
properties the source promises are then proved about those functions as
lemmas.

The PHP string builtins the core relies on are defined in `Strings`, with
their own contracts:
- `explode`/`implode`, `str_replace`, `trim`;
- `preg_replace('/\s+/', ' ')`;
- `intval`, `strtolower`, `ucfirst`, `lcfirst`.

I/O and the environment become parameters or object fields:
- the file system, `glob`, `method_exists`, `get_class_methods` and `is_a`;
- `System::isExecAvailable`, `System::getConsoleColumns` and Symfony's `OutputFormatter::escape`.

`prepare` in `src/Cron.php` reads the step of every comma item from the whole
field (`explode('/', $string)`, not `$value`). The model follows that code as
written:
- in `1,2-10/2` the value part is `1,2-10` and the step 2 for both items: `intval` reads the range `1,2-10` as 1 to 10, so each item gives 1, 3, 5, 7, 9 and the list holds them twice;
- a step of 0 is a modulo-by-zero error.

## Model

| member | source | states |
|---|---|---|
| Strings.Explode | src/Cron.php:108 | the pieces never hold the delimiter; there is at least one piece; text without the delimiter is one piece, text with it at least two |
| Strings.ImplodeExplode | src/Events.php:104 | joining the pieces of `explode` with the delimiter gives the text back |
| Strings.ExplodeImplode | src/Cron.php:166 | splitting joined pieces that hold no delimiter gives the pieces back |
| Strings.ExplodeAfterDelimiter | src/Bot.php:103 | text up to a first delimiter is the first piece, and the rest is exploded on its own |
| Strings.ExplodePair | src/Formatter/AbstractFormatter.php:102 | two delimiters give the two pieces before them, then the pieces of the rest |
| Strings.ImplodePair | src/Output/Console.php:205 | two pieces are joined with exactly one separator |
| Strings.ImplodePrepend | src/Output/Console.php:205 | text put before the first piece comes first in the joined text |
| Strings.ReplaceAbsent | src/Caller.php:106 | `str_replace` leaves text without the search string unchanged |
| Strings.ReplaceSame | src/Caller.php:106 | replacing a string by itself changes nothing |
| Strings.MissingCharNoOccurrence | src/Caller.php:106 | a search string holding a character the text lacks does not occur in it |
| Strings.ReplaceCharRemoves | src/Caller.php:106 | replacing a character by text without it leaves no occurrence of it |
| Strings.ReplaceSuffix | src/Events.php:104 | the trailing `.php` is removed and nothing else is |
| Strings.ReplacePrefix | src/Events.php:104 | a leading occurrence of the search string is replaced and the rest is processed on its own |
| Strings.TrimLeft | src/Cron.php:107 | the result is a suffix of the text and does not start with a trim character |
| Strings.TrimRight | src/Cron.php:107 | the result is a prefix of the text and does not end with a trim character |
| Strings.TrimLeftRemoves | src/Cron.php:107 | only trim characters are removed on the left |
| Strings.TrimRightRemoves | src/Cron.php:107 | only trim characters are removed on the right |
| Strings.Trim | src/Output/Console.php:192 | the result has no trim character at either end; text already without them is unchanged |
| Strings.TrimKeepsMiddle | src/Output/Console.php:205 | `trim` keeps a contiguous middle slice of the text |
| Strings.TrimRemovesEnds | src/Output/Console.php:205 | everything `trim` removes at either end is a trim character |
| Strings.TrimTrailing | src/Output/Console.php:205 | one trailing space after a non-white text is all `trim` removes |
| Strings.DropSpaces | src/Cron.php:58 | a suffix of the text that starts with no white space |
| Strings.Collapse | src/Cron.php:58 | empty only for empty text; starts with a space exactly when the text starts with white space; every white character left is a space; no two spaces in a row |
| Strings.CollapseFixesCollapsed | src/Cron.php:58 | text already in collapsed form is unchanged |
| Strings.CollapseIdempotent | src/Cron.php:58 | collapsing twice is collapsing once |
| Strings.DigitPrefix | src/Cron.php:181-182 | the longest prefix made of decimal digits |
| Strings.DigitChar | src/Cron.php:189 | the digit character of a value below 10 reads back as that value |
| Strings.DecimalString | src/Cron.php:177 | the decimal notation is non-empty, all digits, and has no leading zero |
| Strings.DigitsValueDecimal | src/Cron.php:177 | the decimal notation reads back as the number |
| Strings.DigitPrefixOfDigits | src/Cron.php:181 | a digit string is its own digit prefix |
| Strings.IntValDecimal | src/Cron.php:181-182 | `intval` of a number's decimal notation is the number |
| Strings.TwoDigitsBound | src/Formatter/AbstractFormatter.php:60 | at most two digits give a value below 100 |
| Strings.Lower | src/Cron.php:202 | same length; each upper-case letter becomes its lower-case partner (code + 32), so none is left; every other character kept |
| Strings.Ucfirst | src/Caller.php:63 | only the first character may change: a lower-case letter becomes its upper-case partner (code − 32); it is not a lower-case letter afterwards |
| Strings.Lcfirst | src/Events.php:104 | only the first character may change: an upper-case letter becomes its lower-case partner (code + 32); it is not an upper-case letter afterwards |
| Cron.ReplaceEachNoLetters | src/Cron.php:206 | names starting with a letter leave text without letters unchanged |
| Cron.ReplaceEachSkip | src/Cron.php:206 | names that do not occur in the text can be skipped |
| Cron.NameBecomesNumber | src/Cron.php:200-207 | a field that is exactly the i-th name becomes the i-th number when no earlier name occurs in it |
| Cron.ThreeLetterNames | src/Cron.php:203 | two different three-letter names never occur in one another |
| Cron.MonthNameIsNumber | src/Cron.php:200-207 | a month name in any letter case becomes its month number |
| Cron.DayNameIsNumber | src/Cron.php:213-220 | a week-day name in any letter case becomes its day number |
| Cron.NamesAreWords | src/Cron.php:203 | every month and day name starts with a letter |
| Cron.LowerNoLetters | src/Cron.php:202 | lower-casing leaves text without letters unchanged |
| Cron.NumericFieldUnchanged | src/Cron.php:113-114 | numeric fields are not touched by the name translation |
| Cron.MulStrict | src/Cron.php:184 | proof helper for the step test: a strict inequality of multiples of the step carries over to the factors |
| Cron.MultipleOutside | src/Cron.php:184 | proof helper for the step test: a non-zero multiple of the step is at least one step away from 0 |
| Cron.MulMonotone | src/Cron.php:184 | proof helper for the step test: multiplying by the step keeps the order |
| Cron.MulMod | src/Cron.php:184 | proof helper for the step test: a multiple of the step leaves remainder 0 |
| Cron.ModZeroMul | src/Cron.php:184 | proof helper for the step test: remainder 0 means a multiple of the step |
| Cron.SteppedPrefixLength | src/Cron.php:183-187 | the first n offsets keep one value per multiple of the step below n |
| Cron.SteppedNextIndex | src/Cron.php:183-187 | an offset that is a multiple of the step is the step times the count kept before it |
| Cron.SteppedPrefixAt | src/Cron.php:183-187 | the k-th kept value is min + k·step |
| Cron.SteppedSound | src/Cron.php:183-187 | every kept value lies in [min, max] at a multiple of the step from min |
| Cron.SteppedComplete | src/Cron.php:183-187 | every value of [min, max] at a multiple of the step from min is kept |
| Cron.SteppedMembers | src/Cron.php:183-187 | the kept values are exactly the values of [min, max] at multiples of the step from min |
| Cron.RangeValues | src/Cron.php:183-187 | an empty range gives no values; a non-empty one fails exactly when the step is 0, with modulo by zero |
| Cron.RangeLoop | src/Cron.php:183-187 | the range loop computes `RangeValues` |
| Cron.ExpandItem | src/Cron.php:171-190 | expanding one comma item can fail only with modulo by zero |
| Cron.Items | src/Cron.php:165-169 | a field has at least one comma item |
| Cron.Then | src/Cron.php:171-191 | the concatenation succeeds only when both parts do; the first failure wins |
| Cron.ThenAssociative | src/Cron.php:171-191 | chaining expansions is associative |
| Cron.ExpandItems | src/Cron.php:171-191 | expanding the items can fail only with modulo by zero |
| Cron.Expand | src/Cron.php:162-194 | `prepare` can fail only with modulo by zero |
| Cron.PrepareItem | src/Cron.php:172-190 | the loop body computes the expansion of one item |
| Cron.Prepare | src/Cron.php:162-194 | the item loop computes `Expand` |
| Cron.ExpandSingle | src/Cron.php:165-169 | a field without commas is one item |
| Cron.ExpandStar | src/Cron.php:176-178 | `*` expands to every value of the valid range, in order |
| Cron.ExplodeDecimalRange | src/Cron.php:180 | `x-y` splits into the two numerals |
| Cron.ExpandDecimalRange | src/Cron.php:179-187 | `x-y` is read as the range from x to y |
| Cron.ExpandRange | src/Cron.php:179-187 | `x-y` expands to every integer from x to y, in order |
| Cron.ExplodeStarStep | src/Cron.php:173-175 | `*/n` splits into `*` and the numeral n |
| Cron.ExpandStarStep | src/Cron.php:173-187 | `*/n` keeps every n-th value of the valid range, from its first |
| Cron.ExpandItemsAppend | src/Cron.php:171-191 | the items are expanded one after the other and concatenated; the first failure wins |
| Cron.DayRule | src/Cron.php:128-147 | both day fields restricted: either may match; one restricted: it decides; neither: any day |
| Cron.Field | src/Cron.php:116-120 | `*` stays "any"; anything else is expanded and can fail only with modulo by zero |
| Cron.DowFieldSeven | src/Cron.php:115 | `7` means Sunday only when it is the whole field |
| Cron.Parse | src/Cron.php:113-120 | parsing the five fields can fail only with modulo by zero |
| Cron.Compare | src/Cron.php:105-111 | an expression that does not split into exactly five fields is malformed, and only such an expression is |
| Cron.CompareFiveFields | src/Cron.php:105-154 | with five fields, `compare` is the AND of the field tests with the day rule, or the parse failure |
| Cron.ParseStars | src/Cron.php:116-120 | five `*` fields parse to five "any" matchers |
| Cron.EveryMinute | src/Cron.php:105-154 | an expression of five `*` fields fires at every time |
| Cron.Outcomes | src/Cron.php:88-89 | one `compare` outcome per job |
| Cron.MatchingSnoc | src/Cron.php:88-92 | a further job adds its call exactly when it matches |
| Cron.RunCallsMatching | src/Cron.php:86-93 | when no outcome is an error, `run` calls exactly the matching jobs, in table order |
| Cron.RunStep | src/Cron.php:88-92 | one more job is called, skipped or stops the pass, according to its outcome |
| Cron.RunStaysAborted | src/Cron.php:86-93 | once a failure has stopped the pass, later jobs change nothing |
| Cron.RunStopsAtFirstError | src/Cron.php:86-93 | the first failing job stops `run` after the calls of the matching jobs before it |
| Cron.InOrderLength | src/Cron.php:88 | one job per listed id |
| Cron.Without | src/Cron.php:71 | the ids left are exactly the others, still in increasing order |
| Cron.RemoveKeepsTable | src/Cron.php:68-77 | deleting a key keeps the table consistent with its ordered key list |
| Cron.InOrderAt | src/Cron.php:88 | the i-th job visited is the one stored under the i-th id |
| Cron.WithoutAbsent | src/Cron.php:76 | removing an id that is not there changes nothing |
| Cron.InOrderPrefix | src/Cron.php:88 | the first k jobs visited are those of the first k ids |
| Cron.Cron.constructor | src/Cron.php:36-46 | no jobs, and the id counter at 0 |
| Cron.Cron.Add | src/Cron.php:55-62 | the collapsed expression is stored under the next id, larger than every id before, and appended to the table order |
| Cron.Cron.Remove | src/Cron.php:68-77 | true exactly when the id was present; that job is deleted and nothing else changes |
| Cron.Cron.Run | src/Cron.php:86-93 | the calls made, and the failure that stopped the pass, are those of `RunJobs` over the jobs in table order |
| Events.ClassEvents | src/Events.php:103-105 | one event name per handler file |
| Events.KeepEventsMembers | src/Events.php:108-112 | a name is kept exactly when it is listed and starts with `on` |
| Events.KeepEventsAppend | src/Events.php:108-112 | the filter works entry by entry and keeps the order |
| Events.KeepEventsNone | src/Events.php:108-112 | a list without `on…` names filters to nothing |
| Events.CatalogueMembers | src/Events.php:100-114 | the catalogue holds exactly the `on…` names among the handler files and the dispatcher's methods |
| Events.CatalogueIsHandlerFiles | src/Events.php:106-112 | none of the dispatcher's own methods is an event, so the catalogue comes from the handler files alone |
| Events.ClassEventName | src/Events.php:104 | the handler file `<dir>Event<Name>.php` stands for the event `lcfirst(Name)` |
| Events.AppendedBuckets | src/Events.php:131 | a subscription goes at the end of its own bucket and no other bucket changes |
| Events.VisitPrefix | src/Events.php:144-156 | later priorities only add to the subscriptions visited |
| Events.VisitMembers | src/Events.php:144-156 | the first k priorities visited are 10 down to 11-k |
| Events.OrderMembers | src/Events.php:144-156 | exactly the subscriptions stored at priorities 1 to 10 are visited |
| Events.VisitSameBuckets | src/Events.php:144-156 | the visit depends only on the buckets of priorities 1 to 10 |
| Events.OrderIgnoresOtherPriorities | src/Events.php:144-145 | buckets at priorities outside 1..10 are never visited |
| Events.OrderByPriority | src/Events.php:144-146 | higher priorities are visited first |
| Events.Calls | src/Events.php:146-150 | one call per subscription, in order, each with the event data |
| Events.InvokeAllCalls | src/Events.php:146-154 | when every subscriber has its method, each is called once, in order |
| Events.InvokeAllAborted | src/Events.php:151-153 | after a failure no further subscriber is called |
| Events.InvokeStopsAtMissing | src/Events.php:149-153 | the first subscriber lacking its method stops the fan-out after the calls before it |
| Events.DispatchCallsInOrder | src/Events.php:140-158 | with every method present, the results are one call per visited subscription, in visit order |
| Events.EventClassNames | src/Events.php:103-105 | the file loop computes the event name of each handler file |
| Events.EventNamesOnly | src/Events.php:108-112 | the filter loop keeps the `on…` names, in order |
| Events.Events.constructor | src/Events.php:55-58 | no catalogue yet and no subscriptions |
| Events.Events.GetEventList | src/Events.php:95-115 | the catalogue computed from the handler files; a stored catalogue is returned unchanged; the subscriptions are untouched |
| Events.Events.AddPluginEvent | src/Events.php:124-132 | an event outside the catalogue is refused and changes nothing; otherwise the subscription, its method defaulting to the event name, is appended to its bucket |
| Events.Events.RunPluginEvent | src/Events.php:140-159 | the outcome is `DispatchOf`: nothing for an event nobody subscribed to, the results in visit order, or the failure with the calls already made |
| Events.Events.InvokeBucket | src/Events.php:146-154 | one bucket continues the calls made so far, as `InvokeAll` over the concatenation |
| Events.Events.Call | src/Events.php:81-90 | null exactly when the caller finds no class file or the dispatch fails, each logging one entry with its cause, the name and the arguments; the caller's cache afterwards is the old one, or the old one plus a fresh object for a class met for the first time; otherwise nothing is logged, the event is the caller's forwarded call (none when `is_a` holds) on the cached or the new object, and the plugins are the dispatch results (none without subscribers) |
| Plugin.AppendedKeepsOwnMethods | src/Plugins/Plugin.php:72-83 | appending a subscription to one of the plugin's own methods keeps every subscription of the plugin on its own methods |
| Plugin.Plugin.constructor | src/Plugins/Plugin.php:45-48 | the plugin's methods, dispatcher and logger as given |
| Plugin.Plugin.AddEvent | src/Plugins/Plugin.php:72-83 | a missing method or an unknown event is logged with the event and the method and changes no subscription; otherwise the plugin is subscribed at the priority; the dispatcher's event list is left alone for a missing method and holds the catalogue otherwise |
| Plugin.Plugin.RemoveEvent | src/Plugins/Plugin.php:88-91 | nothing changes |
| Caller.ClassNameParts | src/Caller.php:63 | the class name is the namespace followed by the method name, with its first letter not lower case |
| Caller.RelativeClassPathHasNoBackslash | src/Caller.php:106 | no backslash is left in the class path |
| Caller.PlainClassPath | src/Caller.php:106 | a class name without `Cerberus` and without backslashes is its own path |
| Caller.Component.constructor | src/Caller.php:111 | the new object remembers its class name |
| Caller.Caller.constructor | src/Caller.php:50-53 | an empty cache |
| Caller.Caller.CreateObject | src/Caller.php:104-112 | a missing class file is an error naming it; otherwise a new object of that class |
| Caller.Caller.GetObject | src/Caller.php:90-98 | a cached object is returned and the cache is unchanged; otherwise the new object is cached, or on failure nothing is |
| Caller.Caller.Call | src/Caller.php:61-68 | the object of the class built from namespace and method name; the call is forwarded only when `is_a` does not hold; a missing file is passed on as an error |
| Logging.Logger.constructor | src/Events.php:88 | no entries |
| Logging.Logger.Error | src/Events.php:88 | exactly one entry more, at the end |
| FormatterCodes.FormatNoDelimiter | src/Formatter/AbstractFormatter.php:100-120 | text without the delimiter is returned unchanged |
| FormatterCodes.FormatPair | src/Formatter/AbstractFormatter.php:100-120 | a delimiter pair becomes the start and stop tags around the text between them |
| FormatterCodes.FormatTwoParts | src/Formatter/AbstractFormatter.php:102-114 | the first part is copied and the rest alternate behind start and stop tags |
| FormatterCodes.WeavePair | src/Formatter/AbstractFormatter.php:105-114 | from a closed state, the second part gets the start tag and the third the stop tag |
| FormatterCodes.FormatDangling | src/Formatter/AbstractFormatter.php:115-117 | an unmatched delimiter opens a tag that is closed at the end |
| FormatterCodes.Format | src/Formatter/AbstractFormatter.php:100-120 | the loop computes `FormatSpec` |
| FormatterCodes.WeaveAdvance | src/Formatter/AbstractFormatter.php:105-114 | each turn moves the next tag and part from the rest into the output |
| FormatterCodes.Literals | src/Formatter/AbstractFormatter.php:74-75 | one literal piece per character, in order |
| FormatterCodes.LastCode | src/Formatter/AbstractFormatter.php:58-73 | the last code among the pieces; none when all are literals |
| FormatterCodes.LastCodeAppend | src/Formatter/AbstractFormatter.php:58-73 | the last code of a concatenation is that of the second part, if it has one |
| FormatterCodes.LastCodeTerminated | src/Formatter/AbstractFormatter.php:58-73 | a character that ends a code emits that code as its last code |
| FormatterCodes.ScanWithoutCodes | src/Formatter/AbstractFormatter.php:49-77 | without `\x03` the scanner stays in text mode and copies every character |
| FormatterCodes.LiteralsSnoc | src/Formatter/AbstractFormatter.php:74-75 | one more character adds one more literal at the end |
| FormatterCodes.PiecesWithoutCodes | src/Formatter/AbstractFormatter.php:44-83 | text without `\x03` gives its characters back and no final reset |
| FormatterCodes.CodesCapturedAppend | src/Formatter/AbstractFormatter.php:52-57 | well-captured codes stay well captured when concatenated |
| FormatterCodes.TerminateKeepsInv | src/Formatter/AbstractFormatter.php:58-73 | a character that ends a code keeps the scanner invariant |
| FormatterCodes.QuietStepKeepsInv | src/Formatter/AbstractFormatter.php:50-57 | any other character keeps the scanner invariant |
| FormatterCodes.StepKeepsInv | src/Formatter/AbstractFormatter.php:49-77 | every iteration keeps the scanner invariant |
| FormatterCodes.ScanInvariant | src/Formatter/AbstractFormatter.php:49-77 | codes hold at most two digits of each colour, with a background only after a font; `reset` is set exactly when the last code carried a colour |
| FormatterCodes.ColoursBelowHundred | src/Formatter/AbstractFormatter.php:60-63 | every colour number handed to `getColor` is below 100 |
| FormatterCodes.ResetAfterLastColour | src/Formatter/AbstractFormatter.php:78-80 | the final reset is appended exactly when the last code carried a colour, so the output ends without a colour |
| FormatterCodes.ScanAppend | src/Formatter/AbstractFormatter.php:49-77 | scanning a concatenation continues from the state the first part left |
| FormatterCodes.CommaWithoutBackground | src/Formatter/AbstractFormatter.php:54-71 | `\x03`, a digit and a comma with no background digit emit the font code, then the comma, then the character |
| FormatterCodes.ThirdDigitIsText | src/Formatter/AbstractFormatter.php:52-73 | a third digit after `\x03` is no longer part of the code |
| FormatterCodes.FontDigitsThenText | src/Formatter/AbstractFormatter.php:52-73 | after `\x03`, two digits are the font and a third ends the code as text |
| FormatterCodes.ScanCodes | src/Formatter/AbstractFormatter.php:44-83 | the loop emits the pieces of `Pieces` |
| FormatterCodes.ScanOne | src/Formatter/AbstractFormatter.php:50-76 | one turn of the loop is one `Step` of the scanner |
| ConsoleColors.PaletteIsPermutation | src/Formatter/Console.php:67-84 | the table maps 0..15 one-to-one onto 0..15 |
| ConsoleColors.MatchColorInjective | src/Formatter/Console.php:65-87 | two ids give the same colour exactly when they agree modulo 16 |
| ConsoleColors.GetColorForms | src/Formatter/Console.php:94-107 | the font alone, the font with a background, or the default-colour reset without a font |
| ConsoleColors.BoldPair | src/Formatter/Console.php:47-50 | a `\x02` pair becomes SGR bold on and off around the text |
| ConsoleColors.BoldDangling | src/Formatter/Console.php:47-50 | an unmatched `\x02` is closed at the end |
| ConsoleColors.UnderlinePair | src/Formatter/Console.php:56-59 | a `\x1F` pair becomes SGR underline on and off around the text |
| HtmlColors.MatchColorInjective | src/Formatter/Html.php:75-97 | two ids give the same colour exactly when they agree modulo 16 |
| HtmlColors.PaletteKeys | src/Formatter/Html.php:77-94 | the 16 colours are distinct `#RRGGBB` strings |
| HtmlColors.GetColor | src/Formatter/Html.php:104-130 | a font opens a span and remembers a given background; no font closes an open span, clearing the background, or returns nothing |
| HtmlColors.GetColorOpens | src/Formatter/Html.php:107-120 | a font colour opens a span, first closing the open one |
| HtmlColors.StyleForms | src/Formatter/Html.php:108-113 | the style is the font colour, then the background when one is known |
| HtmlColors.BackgroundRepeated | src/Formatter/Html.php:109-114 | a background given once is repeated on the next span until a close clears it |
| HtmlColors.BoldPair | src/Formatter/Html.php:56-59 | a `\x02` pair becomes a `<b>` element around the text |
| HtmlColors.UnderlineDangling | src/Formatter/Html.php:65-68 | an unmatched `\x1F` is closed at the end |
| Formatter.RenderLiterals | src/Formatter/AbstractFormatter.php:74-75 | literal pieces are copied and leave the state alone |
| Formatter.ColorWithoutCodes | src/Formatter/AbstractFormatter.php:44-83 | text without `\x03` is returned unchanged by either back end, with no reset |
| Formatter.ConsoleRenderStateless | src/Formatter/Console.php:94-107 | the console back end keeps no state |
| Formatter.ConsoleRenderOutput | src/Formatter/Console.php:94-107 | the console markup does not depend on the HTML state |
| Formatter.HtmlOpenAfter | src/Formatter/Html.php:104-130 | a span is open afterwards exactly when the last code carried a colour |
| Formatter.HtmlColorEndsClosed | src/Formatter/Html.php:104-130 | starting closed, a whole `color` call closes every span it opens |
| Formatter.Formatter.constructor | src/Formatter/Html.php:33-50 | the back end as given, no span open, no background |
| Formatter.Formatter.GetColor | src/Formatter/Html.php:104-130 | the back end's markup and new state from `Colour` |
| Formatter.Formatter.Color | src/Formatter/AbstractFormatter.php:44-83 | the markup and state of rendering the scanned pieces in order |
| Formatter.Formatter.RenderOne | src/Formatter/AbstractFormatter.php:60-75 | one piece: literal text copied, a code through `getColor` |
| Formatter.Formatter.Bold | src/Formatter/Console.php:47-50 | the `\x02` toggle between the back end's bold tags |
| Formatter.Formatter.Underline | src/Formatter/Html.php:65-68 | the `\x1F` toggle between the back end's underline tags |
| LegacyFormatter.LegacyRenderLiterals | library/Formatter/Formatter.php:114-116 | literal pieces are copied |
| LegacyFormatter.LegacyColorWithoutCodes | library/Formatter/Formatter.php:81-123 | text without `\x03` is returned unchanged |
| LegacyFormatter.Formatter.constructor | library/Formatter/Formatter.php:35-41 | the type and `getColor` as given |
| LegacyFormatter.Formatter.Format | library/Formatter/Formatter.php:54-74 | the same toggle as `FormatSpec` |
| LegacyFormatter.Formatter.Color | library/Formatter/Formatter.php:81-123 | an unknown type is refused before the text is read; otherwise the codes with their digit strings through `getColor` |
| OutputConsole.CountCons | src/Output/Console.php:266-279 | feeding a character first is one `count` step |
| OutputConsole.CountGrows | src/Output/Console.php:266-279 | the counter never goes down |
| OutputConsole.CountPlain | src/Output/Console.php:266-279 | text without ESC is counted character by character |
| OutputConsole.CountAppend | src/Output/Console.php:266-279 | a concatenation is counted on from where the first part left off |
| OutputConsole.CountInside | src/Output/Console.php:271-276 | inside an escape sequence nothing is counted up to its `m` |
| OutputConsole.CountSkipsSequence | src/Output/Console.php:266-279 | an escape sequence `ESC … m` adds nothing and ends the skipping |
| OutputConsole.ParamRun | src/Output/Console.php:162 | the longest run of `[0-9;]` at the start |
| OutputConsole.SgrLength | src/Output/Console.php:162 | the match of `\033\[[0-9;]+m` at the start, if any: ESC, `[`, and a final `m` |
| OutputConsole.SgrParams | src/Output/Console.php:162 | between `ESC [` and the final `m` of a match there are only digits and `;` |
| OutputConsole.Strip | src/Output/Console.php:162 | never longer than the text |
| OutputConsole.Len | src/Output/Console.php:160-163 | at most the byte length |
| OutputConsole.LenPlain | src/Output/Console.php:160-163 | text without ESC is left unchanged by the removal, so `len` is its byte length |
| OutputConsole.CountSkipsLeadingSgr | src/Output/Console.php:266-279 | a leading SGR sequence is skipped by the counter |
| OutputConsole.LenSkipsLeadingSgr | src/Output/Console.php:160-163 | `len` drops a leading SGR sequence |
| OutputConsole.LenCountsFirst | src/Output/Console.php:160-163 | `len` counts any other first character once |
| OutputConsole.CountMatchesLen | src/Output/Console.php:160-163 | on text whose every ESC opens an SGR sequence, the counter of `split` and `cut` agrees with `len` |
| OutputConsole.CountAfterSgr | src/Output/Console.php:266-279 | the counter agrees with `len` on well-escaped text that starts with an SGR sequence |
| OutputConsole.CountAfterPlain | src/Output/Console.php:266-279 | the counter agrees with `len` on well-escaped text that starts with any other character |
| OutputConsole.SgrFirst | src/Output/Console.php:266-279 | a leading SGR sequence is neither counted nor measured |
| OutputConsole.PlainFirst | src/Output/Console.php:266-279 | any other first character is counted and measured once |
| OutputConsole.CutFrom | src/Output/Console.php:250-255 | never longer than the text |
| OutputConsole.CutIsPrefix | src/Output/Console.php:241-258 | `cut` keeps a prefix of the text |
| OutputConsole.CutFromSpec | src/Output/Console.php:241-258 | the kept prefix is the whole text or has exactly `length` visible characters, and every shorter prefix of it has fewer |
| OutputConsole.CutShort | src/Output/Console.php:241-258 | text whose visible count stays below the length is kept whole |
| OutputConsole.CutPlain | src/Output/Console.php:241-258 | before any ESC, `cut` keeps exactly the characters still to be counted |
| OutputConsole.SplitAtCutHere | src/Output/Console.php:224-229 | a first character reaching the length ends both the cut and the first line |
| OutputConsole.SplitAtCutLater | src/Output/Console.php:224-229 | a first character below the length carries the claim over to the rest |
| OutputConsole.SplitAtCutNever | src/Output/Console.php:224-229 | a rest that stays short is kept whole by both |
| OutputConsole.SplitAtCut | src/Output/Console.php:215-233 | `split` is `cut`, then `end`, then the split of the rest, for as long as the length is reached |
| OutputConsole.SplitPlain | src/Output/Console.php:215-233 | on text without ESC, `end` follows each `length` characters |
| OutputConsole.SplitShort | src/Output/Console.php:215-233 | text whose visible count stays below the length is returned unchanged |
| OutputConsole.Count | src/Output/Console.php:266-279 | the character is returned; the counter and the flag are one `count` step on |
| OutputConsole.Cut | src/Output/Console.php:241-258 | a length below 1 is refused; otherwise the characters up to the one at which the counter reaches the length |
| OutputConsole.Split | src/Output/Console.php:215-233 | a length below 1 is refused; otherwise `end` follows each character at which the counter reaches the length |
| OutputConsole.Append | src/Output/Console.php:185-187 | the output keeps a current line |
| OutputConsole.NewLine | src/Output/Console.php:197-202 | the output keeps a current line |
| OutputConsole.NewLines | src/Output/Console.php:188-196 | the output keeps a current line |
| OutputConsole.Place | src/Output/Console.php:184-202 | the output keeps a current line |
| OutputConsole.WrapFrom | src/Output/Console.php:183-203 | the output keeps a current line |
| OutputConsole.WordwrapSpec | src/Output/Console.php:173-206 | a length below 1 is refused with the length error; otherwise the result starts and ends with no trim character |
| OutputConsole.WrapTwoWords | src/Output/Console.php:183-203 | the lines of a two-word text are the second word placed after the first |
| OutputConsole.PlaceFirst | src/Output/Console.php:185-187 | a first word that fits goes on the first line followed by a space |
| OutputConsole.WrapFittingLines | src/Output/Console.php:183-203 | two words that fit make one line |
| OutputConsole.WordwrapKeepsFittingWords | src/Output/Console.php:173-206 | two words that fit on one line stay together |
| OutputConsole.PlaceSecondOnNewLine | src/Output/Console.php:197-202 | a second word that does not fit starts a new line and the first is trimmed |
| OutputConsole.WrapBreakLines | src/Output/Console.php:183-203 | two words that do not fit make two lines |
| OutputConsole.WrapBreakJoined | src/Output/Console.php:205 | the two lines are joined with the break |
| OutputConsole.TrimJoined | src/Output/Console.php:205 | the trailing space is all the final `trim` removes |
| OutputConsole.WordwrapBreaksBeforeWord | src/Output/Console.php:173-206 | a second word that does not fit goes on the next line, after the break |
| OutputConsole.PlacePieces | src/Output/Console.php:190-196 | the inner loop puts each piece of an over-long word on a line of its own |
| OutputConsole.PlaceWord | src/Output/Console.php:184-202 | one word of the loop is placed as `Place` says |
| OutputConsole.Wordwrap | src/Output/Console.php:173-206 | the loop computes `WordwrapSpec` |
| OutputConsole.CutWellEscaped | src/Output/Console.php:241-258 | on well-escaped text with enough visible characters, `cut` keeps a well-escaped prefix with exactly the visible characters still to be counted and leaves well-escaped text |
| OutputConsole.SplitPieces | src/Output/Console.php:188-196 | a well-escaped word without spaces, split with `' '` and exploded again, gives pieces that joined are the word, each well-escaped with at most `length` visible characters |
| OutputConsole.SplitPiecesCut | src/Output/Console.php:188-196 | the same for a word long enough to be cut: the cut piece, then the pieces of the rest |
| OutputConsole.ExplodeWellEscaped | src/Output/Console.php:178 | the words of well-escaped text are well-escaped |
| OutputConsole.LenAppend | src/Output/Console.php:160-163 | `len` adds up over well-escaped text followed by any text |
| OutputConsole.PlaceFits | src/Output/Console.php:184-202 | with cutting on, each step of the loop keeps every finished line within `length` visible characters and the current line's count equal to its `len` |
| OutputConsole.WrapFromFits | src/Output/Console.php:183-203 | the whole loop keeps that invariant |
| OutputConsole.WrapLinesFit | src/Output/Console.php:173-206 | with cutting on and well-escaped text, every line `wordwrap` joins has at most `length` visible characters without its trailing blanks |
| OutputConsole.EndFix | src/Output/Console.php:120 | the text is extended by at most one space, so it no longer ends with a backslash; other text is unchanged |
| OutputConsole.Spaces | src/Output/Console.php:144 | n spaces |
| OutputConsole.Fit | src/Output/Console.php:132-153 | fails exactly when the text is too long and the length is below 1 (when breaking) or below 4 (when cutting); the result never ends with a backslash |
| OutputConsole.BuildSpec | src/Output/Console.php:114-154 | no limit: the text with its end fixed; unknown terminal width: the text as is; a given width never leaves a trailing backslash |
| OutputConsole.BuildKeepsShortText | src/Output/Console.php:133-136 | text whose visible length fits the width less the offset comes back with only its end fixed |
| OutputConsole.FitCuts | src/Output/Console.php:145-151 | without breaking, the result is the text cut to `length - 3` visible characters, then `...`, then `ESC[0m` exactly when the cut text holds an ESC |
| OutputConsole.CutKeepsLen | src/Output/Console.php:241-258 | on well-escaped text longer than `length`, `cut` keeps a strictly shorter prefix with exactly `length` visible characters |
| OutputConsole.BuildCutsLongText | src/Output/Console.php:114-151 | without breaking, an over-long text gives its cut prefix, then `...`, then `ESC[0m` exactly when the prefix holds an ESC; the prefix has `n - offset - 3` visible characters (always on well-escaped text, where it is also strictly shorter than the text) |
| OutputConsole.BuildWithLimit | src/Output/Console.php:132 | with a given width, `build` fits the text to the width less the offset |
| OutputConsole.CutReachesLength | src/Output/Console.php:241-258 | `cut` keeps the whole text or exactly `length` visible characters |
| OutputConsole.BuildRefusesNarrowWidth | src/Output/Console.php:138-144 | with breaking on, a width that leaves a length below 1 is refused |
| OutputConsole.FitWidth | src/Output/Console.php:132-153 | the second half of `build` computes `Fit` |
| OutputConsole.FitTo | src/Output/Console.php:119-132 | after the markup, `build` with no limit fixes the end, with an unknown terminal width returns the text, and otherwise fits it to the width less the offset: it computes `BuildSpec` |
| OutputConsole.FormattedPlain | src/Output/Console.php:116-118 | text without formatting codes is not changed by the formatter |
| OutputConsole.SplitThreeChunks | src/Output/Console.php:215-233 | plain text of two full chunks and a short one gets `end` after each full chunk |
| OutputConsole.FitSplitsIntoLines | src/Output/Console.php:138-144 | plain text of two full chunks and a shorter third, offset 0, is broken into lines of `n` characters |
| OutputConsole.FitBreaksAndIndents | src/Output/Console.php:137-153 | for every over-long text, breaking gives the `wordwrap` or `split` result with every line break followed by `offset` spaces (joining the lines back with a bare line break gives that result again), then the end fix |
| Strings.ReplaceCharJoins | src/Output/Console.php:144 | replacing a one-character needle equals exploding on it and imploding with the replacement |
| OutputConsole.BuildSplitsIntoLines | src/Output/Console.php:114-154 | breaking plain text of two full chunks and a shorter third, offset 0, without word wrapping gives lines of the width, then the end fix (indentation for any offset: `FitBreaksAndIndents`) |
| OutputConsole.OutputConsole.constructor | src/Output/Console.php:48-57 | no parameters yet; the formatter and terminal answers as given |
| OutputConsole.OutputConsole.SetParam | src/Output/Console.php:67-70 | the parameters are the arguments |
| OutputConsole.OutputConsole.Format | src/Output/Console.php:116-118 | bold, underline and colour in that order give `Formatted` of the text; the formatter's open-element state is unchanged |
| OutputConsole.OutputConsole.Build | src/Output/Console.php:114-154 | the result is `BuildSpec` of the formatter's console markup; the formatter's state is unchanged |
| OutputConsole.OutputConsole.Prepare | src/Output/Console.php:98-104 | built unless `-noconsole` was given, then escaped when asked; an error from `build` passes through; the formatter's state is unchanged |
| Bot.EntryWithoutValue | src/Bot.php:103-104 | an argument without `=` sets its name to the empty string |
| Bot.EntryNameValue | src/Bot.php:103-104 | `name=value` sets the name to the value |
| Bot.EntryExtraIgnored | src/Bot.php:103-104 | text after a second `=` is dropped |
| Bot.LastArgumentWins | src/Bot.php:101-105 | an option is set by the last argument that names it |
| Bot.UnnamedOptionKept | src/Bot.php:101-105 | an option no argument names keeps its earlier value, or stays unset |
| Bot.Bot.constructor | src/Bot.php:54-72 | id 0 and no options |
| Bot.Bot.SetBotId | src/Bot.php:82-85 | the id is set and the options are unchanged |
| Bot.Bot.GetBotId | src/Bot.php:90-93 | the id |
| Bot.Bot.SetParam | src/Bot.php:98-106 | the arguments after the script name are added, in order, to the options already set; the id is unchanged |
| Bot.Bot.GetParam | src/Bot.php:111-118 | the value exactly when the option is set, otherwise null |

## Reference definitions

The contracts in the table are stated in terms of the functions below. Each one writes out the cited lines as a computation on values, and carries no contract of its own. What is proved about it is in the table rows that name it.

- Strings:
  - `Strings.Implode` is `implode` (src/Output/Console.php:205).
  - `Strings.Replace` is `str_replace` with one search string, left to right and without overlaps (src/Caller.php:106, src/Events.php:104).
  - `Strings.ReplaceEach` is `str_replace` with arrays, one search string after the other (src/Cron.php:206, 219).
  - `Strings.IntVal` and `Strings.DigitsValue` are `intval` on the leading decimal digits (src/Cron.php:181-182).
- Bot:
  - `Bot.Entry` is the name and value of one `name=value` argument (src/Bot.php:103-104).
  - `Bot.AddOptions` is the option map after the argument loop (src/Bot.php:101-105).
- Caller:
  - `Caller.ClassName` is `$namespace . ucfirst($methodName)` (src/Caller.php:63).
  - `Caller.RelativeClassPath` is the `str_replace` on the class name (src/Caller.php:106).
  - `Caller.ClassFile` is the file path of the class (src/Caller.php:106).
- Events:
  - `Events.ClassEvent` is the event name of one handler file (src/Events.php:104).
  - `Events.KeepEvents` is the filter on `on…` names (src/Events.php:108-112).
  - `Events.Catalogue` is what `getEventList` computes (src/Events.php:100-114).
  - `Events.Appended` adds a subscription to the table (src/Events.php:131).
  - `Events.Visit` and `Events.Order` give the order in which priorities 10 down to 1 are visited (src/Events.php:144-156).
  - `Events.InvokeAll` calls the subscriptions in order (src/Events.php:146-154).
  - `Events.DispatchOf` is the outcome of `runPluginEvent` (src/Events.php:140-158).
- Cron:
  - `Cron.MonthNameToNumber` and `Cron.DowNameToNumber` translate names (src/Cron.php:200-207, 213-220).
  - `Cron.ItemParts` is the value part and step of one comma item (src/Cron.php:171-182).
  - `Cron.Stepped` keeps every step-th value of a range (src/Cron.php:183-187).
  - `Cron.Fields` and `Cron.DowField` are the split fields and the day-of-week field (src/Cron.php:107-115).
  - `Cron.Matches`, `Cron.DaysMatch` and `Cron.Fires` are the field tests and the day rule of `compare` (src/Cron.php:121-154).
  - `Cron.RunJobs` and `Cron.Matching` are the job loop of `run` (src/Cron.php:86-93).
  - `Cron.InOrder` lists the jobs in table order (src/Cron.php:88).
- The formatter codes:
  - `FormatterCodes.Weave` and `FormatterCodes.FormatSpec` are `format` (src/Formatter/AbstractFormatter.php:100-120).
  - `FormatterCodes.Step`, `FormatterCodes.Scan` and `FormatterCodes.Pieces` are the character loop of `color` and its final reset (src/Formatter/AbstractFormatter.php:44-83).
- The colour tables:
  - `ConsoleColors.MatchColor` and `ConsoleColors.GetColor` are the console `matchColor` and `getColor` (src/Formatter/Console.php:65-107).
  - `HtmlColors.MatchColor` is the HTML `matchColor` (src/Formatter/Html.php:75-97).
- Formatter:
  - `Formatter.Colour`, `Formatter.RenderPiece` and `Formatter.Render` render the scanned pieces through the back end's `getColor` (src/Formatter/AbstractFormatter.php:60-82).
  - `Formatter.BoldTags` and `Formatter.UnderlineTags` are the tags of `bold` and `underline` (src/Formatter/Console.php:47-59, src/Formatter/Html.php:56-68).
- LegacyFormatter:
  - `LegacyFormatter.KnownType` is the type guard (library/Formatter/Formatter.php:83-85).
  - `LegacyFormatter.LegacyArgs` and `LegacyFormatter.LegacyRender` render the pieces through `getColor` with the digit strings (library/Formatter/Formatter.php:98-116).
- OutputConsole:
  - `OutputConsole.CountStep` and `OutputConsole.CountFrom` are `count` and its by-reference counter and flag over a text (src/Output/Console.php:266-279).
  - `OutputConsole.WellEscaped` is text in which every ESC opens a complete SGR sequence (src/Output/Console.php:162).
  - `OutputConsole.CutSpec` is `cut` (src/Output/Console.php:241-258).
  - `OutputConsole.SplitFrom` and `OutputConsole.SplitSpec` are `split` (src/Output/Console.php:215-233).
  - `OutputConsole.Formatted` is the bold, underline and colour passes (src/Output/Console.php:116-118).
  - `OutputConsole.NoConsole` is the `-noconsole` test (src/Output/Console.php:100).

## Left out

- Byte and character strings: strings are sequences of characters.
  - `utf8_decode`/`utf8_encode` in `build` are not modelled.
  - `strlen` is the sequence length.
- `Caller` keys its cache by the md5 digest of the class name. The model keys it by the name itself: distinct names get distinct entries, which md5 gives in practice.
- `Caller.Caller.Call`:
  - `is_a` is an abstract relation on class names;
  - `DIRECTORY_SEPARATOR` is `/`;
  - the file check and the dynamic `new` are a set of existing files and a fresh `Component`;
  - the forwarded call is returned as a record, not executed;
  - with PHP's own `is_a` an object made by `new $className` is always of that class, so the forwarding branch is reached only if `is_a` says otherwise; the model keeps both branches reachable.
- Events: `glob` of the handler directory and `method_exists` are given as object fields.
  - PHP method names are case-insensitive; the model compares them exactly.
  - A handler's return value is stood for by a record of the call.
  - `setBot`/`getBot` and the constructor's wiring are not modelled.
- Events.Events.Call / Events.Events.RunPluginEvent: a handler that throws is not modelled; only a missing method aborts the fan-out. An exception raised inside the built-in `Event` handler is not modelled either, since that call is returned as a record.
- Plugin: `get_class_methods` is given as a set of names. `setBot`/`getBot` are not modelled.
- Logging: the log transport is not modelled; only the recorded entries are. The text of each exception message is represented by its cause.
- Cron: PHP's array-key order for the job table is kept as an explicit list of ids in insertion order.
  - The called methods are recorded, not executed.
  - `Cron.Expand` reads numbers with `intval` on leading decimal digits only: signs, leading white space and non-numeric steps read as 0 or as their digits.
  - A negative step (`*/-1`) cannot be written with digits only and is not modelled.
  - Time arguments are integers; PHP's strict `in_array` on mixed types is not modelled.
- Formatters: `intval` of the digit strings is the digits' value.
  - `matchColor` of a negative id (PHP's `%` keeps the sign) cannot arise from digit strings and is not modelled; ids are `nat`.
  - The delimiter of `format` is a single character, as every caller passes.
  - The two formatter subclasses are one class whose `kind` selects the back end.
- Formatters, the older base class: its abstract `getColor`, `matchColor`, `bold` and `underline` are given as one function parameter over the captured digit strings.
- LegacyFormatter.Formatter.Color / LegacyFormatter.LegacyRender: the file declares `strict_types=1` (library/Formatter/Formatter.php:3) and the abstract `getColor` takes `int` parameters (line 41), yet `color` passes it the captured digit strings (lines 100-103). A subclass that keeps the `int` parameters therefore raises a `TypeError` on every code that carries digits; only a code without digits (the call with no arguments) gets through. The model's `getColor` takes the strings and cannot fail, so it stands for a subclass that widens the parameter types; the `TypeError` path is not modelled.
- OutputConsole:
  - `escape` is Symfony's `OutputFormatter::escape`, given as a function;
  - `writeln` (terminal output) is not modelled;
  - `System::isExecAvailable` and `System::getConsoleColumns` are fixed fields;
  - `offset` is a `nat`, so a negative offset, which PHP would accept, is not modelled;
  - a `$length` argument other than `false`, `null` or an integer is not modelled.
  - `PHP_EOL` is `\n`.
- OutputConsole.WordwrapSpec: its own contract states only the length error and the trimmed ends. The line width is proved apart, by `WrapLinesFit`, for the lines before they are joined, and only with cutting on and on well-escaped text. With cutting off a long word stays whole, and an unterminated escape sequence makes `len` and the counter disagree; no bound is stated for either.
- OutputConsole.OutputConsole.SetParam: the `$param` array is a sequence of strings.
- Bot.Bot.SetParam:
  - the `var_dump` debugging output is left out;
  - PHP's conversion of numeric option names to integer keys is not modelled: names stay strings;
  - the remaining accessors of `Bot` (system, database, console, caller, config, irc) and `run` are not modelled.
