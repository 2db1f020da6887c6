# Supernote module generator: verified model

A Dafny model of the parts of the Supernote module generator on which correctness rests, with
proofs of what they promise. `dafny verify dfyconfig.toml` checks the whole project.

Six parts of the generator are modelled.

- **Typed conversion.** A planner unfolds a table of named types, possibly cyclic, into a finite
  tree. A converter walks tree and value together under a budget of depth, visits and bytes,
  keeping the native objects it meets. The functions are in `Planning` and `Conversion`; `Engine`
  holds the converter over mutable objects, loop by loop. `RoundTrip` sets the two directions
  against each other, and `Preparation` whole calls and injected allocation failures. The
  converters generated for C++ look named types up at every step instead: `Emitted` and
  `EmittedOutput` describe them, `EmittedEngine` runs them in place, and both are set against the
  unfolded tree. `Preflight` compares the fast check with the call it stands for, and
  `PreflightLimits` says for which parameters it decides alone. What a result means is said without
  any converter: `Meaning` relates a value to its converted one, `Doubles` the numbers to powers of
  two and `Utf8` the lengths to the encoding; `Calls` says what host code sees, and `Refusals` and
  `EmittedFailures` which kind of failure a value gets.
- **The C++ scanner.** `LexModel` says what a faithful account of a text is, `Lexer` is the state
  machine that gives one, and `LexUnique` shows there is only one. `Braces`, `Namespaces` and
  `Scopes` build on the recorded depths: matching braces, named namespaces, classes at namespace
  scope. `LexLines` says which recorded lines are exact, `LexRaw` that raw strings are read by the
  rule of the language, `LexConditions` which records a conditional hides, and `LexShapes` where
  pieces begin and end. `ScopePaths` describes the namespace paths and class extents by the tokens.
- **C++ type spellings.** `CppTypes` holds printer, normalisation and parser, `CppRegistry` the
  name registry filled in place, `CppRoundTrip` and `CppForms` the laws between them.
  `CppParsing` says on every spelling what is accepted, without the parser's helper functions.
  `CppSpelling` and `CppRelex` treat the spelling of a scanned type, which lexes back to itself.
- **The object identity registry.** `RegistryModel` is a transition system in which owners expire,
  objects are collected and addresses are reused between calls and beside them; `Registry` is the
  class with the list it erases from and appends to.
- **Publication.** `PublicationModel` treats a run as filesystem steps that may stop anywhere;
  `Publication` is the executor over a mutable tree, and `PublicationOrder` reads the order off its
  steps.
- **Two readers.** `SourceTree` is the worklist over hashed source trees, and `PropertiesModel`,
  `Properties` and `PropertiesRoundTrip` the Java properties reader; `PropertiesGrammar` says which
  escapes it accepts, and `PropertiesLayout` that the layout of a file does not matter.

Where the source updates state, a method or a class does it here, and its contract ties the new
state to a function; the laws are lemmas about those functions.

## Model

| member | source | states |
|---|---|---|
| `Semantics.RoundingKeepsInt32` | src/supernote_module_generator/conversion.py:843-851 | the host conversion of an integer to a double, rounding to nearest even, is exact below 2^53 and never brings a larger integer into the 32-bit range |
| `Semantics.IntegerToDouble` | src/supernote_module_generator/conversion.py:843-851 | so the range test made on the double decides exactly the 32-bit integers |
| `Doubles.IntegerLimitsArePowers` | src/supernote_module_generator/conversion.py:849-861 | the integer limits compared with are the powers of two of 32 and 64 bits |
| `Doubles.DoubleLimitIsAPower` | src/supernote_module_generator/conversion.py:864-871 | the conversion of an integer to a double overflows from 2^1024 on, after rounding |
| `Doubles.FloatLimitIsAPower` | src/supernote_module_generator/conversion.py:868-870 | the largest float is 2^128 less 2^104 |
| `Doubles.RoundingIsNearest` | src/supernote_module_generator/conversion.py:843-851 | of all whole numbers with at most 53 significant bits the rounded one is nearest |
| `Doubles.TiesGoToEven` | src/supernote_module_generator/conversion.py:843-851 | halfway between two of them the rounded one has the even significand |
| `Utf8.WidthIsEncoding` | src/supernote_module_generator/conversion.py:872-878 | the width counted for a character is the length of its only encoding by the syntax of section 4 of RFC 3629 |
| `Utf8.LengthIsEncoding` | src/supernote_module_generator/conversion.py:872-878 | the length charged for a string is that of its encoded bytes |
| `Planning.PlannedFieldAt` | src/supernote_module_generator/conversion.py:426-439 | the plan of a record holds, field by field and in order, the name and the plan of each declared field |
| `Planning.PlannedChains` | src/supernote_module_generator/conversion.py:359-439 | a planned type has only resolved, correctly kinded references, and no chain of mentions below it repeats one |
| `Planning.RepeatedChainsDoNotPlan` | src/supernote_module_generator/conversion.py:421-425 | a value that reaches itself through fields, arrays or nullables refuses every plan that reaches it |
| `Planning.SoundTypesPlan` | src/supernote_module_generator/conversion.py:359-439 | a type whose reachable references are sound and acyclic plans, on every finite table, cyclic ones included |
| `Planning.PlanningSucceedsIff` | src/supernote_module_generator/conversion.py:359-439 | planning succeeds if and only if every reference reachable from the root is sound and no value type reaches itself |
| `Planning.PlansAreWellFormed` | src/supernote_module_generator/conversion.py:113-144 | a plan never nests void and keeps the field names of its records distinct |
| `Planning.PlansFoldBack` | src/supernote_module_generator/conversion.py:359-439 | planning loses nothing: a plan folds back to its type, and every named node repeats the identity, name and constants or fields the table has there |
| `Conversion.VisitStep` | src/supernote_module_generator/conversion.py:546-557 | against a budget within its limits a visit succeeds exactly when depth and visit count allow it: the counter-overflow test never decides |
| `Conversion.ReserveStep` | src/supernote_module_generator/conversion.py:559-575 | the same for a reservation and the byte limit |
| `Conversion.PlainScalars` | src/supernote_module_generator/conversion.py:832-871 | a scalar without a buffer converts exactly when it is typed, to its image, at no byte cost |
| `Conversion.RecordAcceptance` | src/supernote_module_generator/conversion.py:809-829 | a record is acceptable exactly when its own 32 + 16n bytes are affordable and its fields are acceptable after them |
| `Conversion.ItemConversionsAreExact` | src/supernote_module_generator/conversion.py:792-808 | the item loop succeeds exactly when the remaining items are acceptable together, and appends their images in order |
| `Conversion.FieldConversionsAreExact` | src/supernote_module_generator/conversion.py:813-829 | the same for the declared fields of a record |
| `Conversion.ConversionIsExact` | src/supernote_module_generator/conversion.py:736-894 | exact acceptance in both directions: an uninjected conversion succeeds if and only if the value is typed, every position is within its limits and the closed-form cost is affordable; it then returns the image, moves visits, bytes and reservations by exactly that cost, and appends exactly the object leaves in traversal order |
| `Meaning.TypedIffMeaningful` | src/supernote_module_generator/conversion.py:736-894 | a value is typed for a plan if and only if there is a value it means: a relation of the two values alone, position by position |
| `Meaning.ConversionKeepsMeaning` | src/supernote_module_generator/conversion.py:736-894 | a conversion that succeeds makes a value its argument means: the same items in order, the same fields and no others, the same numbers, text and bytes |
| `Meaning.FromJsKeepsMeaning` | src/supernote_module_generator/cpp_object_binding_codegen.py:289-478 | the same of the emitted input converter |
| `Meaning.ToJsKeepsMeaning` | src/supernote_module_generator/cpp_object_binding_codegen.py:481-580 | the same of the emitted output converter |
| `Meaning.ViewsConvertToTheirBytes` | src/supernote_module_generator/conversion.py:494-496 | byte i of a converted view is byte offset + i of its buffer, in the reference and in the emitted converter, under any budget and any fault |
| `Refusals.TypedValuesAreRefusedForRange` | src/supernote_module_generator/conversion.py:736-894 | without faults a typed value is only ever refused for a limit, not for its type |
| `Refusals.StrangersAreRefusedForType` | src/supernote_module_generator/conversion.py:736-894 | a value of another kind than the root of the plan, `undefined` and null included, is refused for its type once its visit is paid |
| `Refusals.FirstFailingItem` | src/supernote_module_generator/conversion.py:792-808 | an array fails as its first failing item does, at the meter the items before it leave; a hole fails for its type |
| `Refusals.FirstFailingField` | src/supernote_module_generator/conversion.py:813-829 | a record fails as its first failing field in the order of the declaration does; a missing one fails for its type |
| `Refusals.MisfitArgumentsAreRefused` | src/supernote_module_generator/conversion.py:610-626 | arguments that are no sequence, or of another number than the parameters, are refused for their type at no cost |
| `RoundTrip.ImageReturns` | src/supernote_module_generator/conversion.py:736-894 | the image of a typed value is typed the other way, fits the same limits, has the same cost and comes back as the value, up to list or tuple and buffer container |
| `RoundTrip.RoundTripHolds` | src/supernote_module_generator/conversion.py:736-894 | a value accepted on a fresh budget in one direction is accepted on a fresh budget in the other, with the same value, visits, bytes and retained objects |
| `RoundTrip.PlannedTypesRoundTrip` | src/supernote_module_generator/conversion.py:351-439 | the same for every non-void type that plans, in both directions |
| `Preparation.PreparationIsExact` | src/supernote_module_generator/conversion.py:610-640 | arguments share one budget: the list is prepared exactly when all are typed, fit, and their summed cost is within the limits |
| `Calls.PreparedArgumentsAreImages` | src/supernote_module_generator/conversion.py:610-640 | without faults exactly the admissible lists are prepared, one argument for each parameter, and value k is the image of argument k |
| `Calls.GuardedCallsAreExact` | src/supernote_module_generator/conversion.py:643-656 | the constructor or accept callback is called once, with those images in their order, or never; success means that it returned |
| `Calls.InvocationsAreExact` | src/supernote_module_generator/conversion.py:680-692 | the implementation is called once with those images, or never; the call succeeds if and only if it returns a value acceptable on a budget of its own, and gives the image of that value |
| `Calls.AssignmentsAreExact` | src/supernote_module_generator/conversion.py:712-733 | the setter is called once with the image of the value exactly when the value is acceptable, and otherwise never |
| `Calls.EmittedCallsAgree` | src/supernote_module_generator/cpp_object_binding_codegen.py:1133-1214 | the argument loop of the emitted call succeeds when the reference one does, with the same values in the same order |
| `Calls.EmittedArgumentsAreImages` | src/supernote_module_generator/cpp_object_binding_codegen.py:1133-1214 | so the emitted call, too, passes the image of argument k as value k |
| `Preparation.ReservationsOnlyGrow` | src/supernote_module_generator/conversion.py:529-534 | no conversion gives a reservation back |
| `Preparation.ConversionIsGated` | src/supernote_module_generator/conversion.py:522-534 | with a failure injected after k reservations a conversion is identical when it needs at most k, and otherwise fails for want of memory at reservation k + 1 |
| `Preparation.FaultsAreTransactional` | src/supernote_module_generator/conversion.py:610-656 | fault injection on construction and acceptance is complete, and a fault leaves the constructor or accept callback uncalled |
| `Preparation.FaultsInInvocations` | src/supernote_module_generator/conversion.py:680-692 | the implementation is called if and only if the fault comes after all input reservations; a fault among the reservations of the result discards the result, and an exception of the implementation passes through |
| `Preparation.FaultsInAssignments` | src/supernote_module_generator/conversion.py:712-733 | a fault among the reservations of an assignment leaves the setter uncalled; any other changes nothing |
| `Engine.AllocationFaultInjector.Reserve` | src/supernote_module_generator/conversion.py:529-534 | the injector counts a reservation or fails without counting it |
| `Engine.ConversionBudget.Visit` | src/supernote_module_generator/conversion.py:546-557 | the mutable budget takes one visit as `Conversion.Visit` says |
| `Engine.ConversionBudget.Reserve` | src/supernote_module_generator/conversion.py:559-571 | the mutable budget reserves as `Conversion.Reserve` says, injector first |
| `Engine.ConvertScalarValue` | src/supernote_module_generator/conversion.py:832-894 | the scalar converter leaves the result and the budget of `Conversion.ConvertScalar` |
| `Engine.ConvertValue` | src/supernote_module_generator/conversion.py:736-829 | the converter over a mutable budget, injector and retained list leaves the result and the state of `Conversion.Convert` |
| `Engine.ConvertArray` | src/supernote_module_generator/conversion.py:777-808 | the item loop of an array |
| `Engine.ConvertRecord` | src/supernote_module_generator/conversion.py:809-829 | the field loop of a record |
| `Engine.PrepareParameters` | src/supernote_module_generator/conversion.py:610-640 | the argument loop on one fresh budget and one retained list |
| `Engine.CallTransactionally` | src/supernote_module_generator/conversion.py:643-656 | the callback receives the prepared arguments once, or nothing at all; its exception passes through |
| `Engine.InvokeTransactionally` | src/supernote_module_generator/conversion.py:680-692 | inputs, one call of the implementation, its exception or else its result on a second fresh budget behind the same injector |
| `Engine.AssignTransactionally` | src/supernote_module_generator/conversion.py:712-733 | the setter receives the converted value once, or nothing at all; its exception passes through |
| `Emitted.NoWrapIff` | src/supernote_module_generator/cpp_object_binding_codegen.py:433 | the 64-bit byte count of arrays within a limit is exact if and only if the limit keeps 24 + 8n below 2^64 |
| `Emitted.AddressableValuesAreSized` | src/supernote_module_generator/cpp_object_binding_codegen.py:433 | arrays of fewer than 2^32 elements, all that JavaScript has, never wrap it |
| `Emitted.LimitsSizeEveryValue` | src/supernote_module_generator/cpp_object_binding_codegen.py:433 | under limits that exclude the wrap no value wraps it |
| `Emitted.UnfoldingPreservesMeaning` | src/supernote_module_generator/cpp_object_binding_codegen.py:289-478 | unfolding preserves meaning: the emitted per-type converters, which look named types up at every step, and the converter that walks the unfolded plan succeed together, with the same value, counters and retained objects |
| `EmittedFailures.FailuresAgree` | src/supernote_module_generator/cpp_object_binding_codegen.py:289-478 | on values whose enum texts are listed and whose numbers are doubles they also fail together, with the same kind of failure and the same budget, injected faults included |
| `Emitted.SizedIsNeeded` | src/supernote_module_generator/cpp_object_binding_codegen.py:433 | a remark on the model: the law needs arrays of bounded length, because a wrapped byte count is affordable to a model without memory; the emitted code could not reserve such a vector, and no JavaScript array is that long |
| `EmittedOutput.OutputAgrees` | src/supernote_module_generator/cpp_object_binding_codegen.py:481-580 | `to_js` makes the value the plan makes, with the same budget |
| `EmittedOutput.RetentionAgrees` | src/supernote_module_generator/cpp_object_binding_codegen.py:583-617 | `retain_native` keeps exactly the object leaves the plan charges for, in order |
| `EmittedOutput.OutputPassesRefineTheEngine` | src/supernote_module_generator/cpp_object_binding_codegen.py:481-617 | the two output passes together do what one reference conversion does: acceptance, value, counters, retained objects |
| `EmittedEngine.AllocationGate.Reserve` | src/supernote_module_generator/conversion_codegen.py:56-63 | the gate fails at its threshold, fails for range at the end of its counter, and otherwise counts one more |
| `EmittedEngine.Budget.Visit` | src/supernote_module_generator/conversion_codegen.py:92-105 | the emitted budget visits as the reference budget does, and its gate stays behind its visits |
| `EmittedEngine.Budget.Reserve` | src/supernote_module_generator/conversion_codegen.py:131-160 | the emitted budget reserves as the reference does; the counter of the gate cannot overflow, because every reservation follows a visit of its own |
| `EmittedEngine.FromJsValue` | src/supernote_module_generator/cpp_object_binding_codegen.py:289-323 | the emitted `from_js` over a mutable budget and retained list computes `Emitted.FromJs` |
| `EmittedEngine.ScalarFromJsValue` | src/supernote_module_generator/cpp_object_binding_codegen.py:324-386 | its scalar cases |
| `EmittedEngine.EnumFromJsValue` | src/supernote_module_generator/cpp_object_binding_codegen.py:403-422 | its enum case: bytes are reserved before the comparison with each constant |
| `EmittedEngine.ObjectFromJsValue` | src/supernote_module_generator/cpp_object_binding_codegen.py:387-402 | its object case: the handle is reserved, then retained |
| `EmittedEngine.ArrayFromJsValue` | src/supernote_module_generator/cpp_object_binding_codegen.py:423-446 | its item loop |
| `EmittedEngine.RecordFromJsValue` | src/supernote_module_generator/cpp_object_binding_codegen.py:447-476 | its field sequence |
| `EmittedEngine.ValidateJsValue` | src/supernote_module_generator/cpp_object_binding_codegen.py:133-159 | the emitted `validate_js` computes `Emitted.ValidateJs` |
| `EmittedEngine.ValidateScalarValue` | src/supernote_module_generator/cpp_object_binding_codegen.py:160-207 | its scalar cases, which reserve nothing |
| `EmittedEngine.ValidateItemValues` | src/supernote_module_generator/cpp_object_binding_codegen.py:236-255 | its item loop |
| `EmittedEngine.ValidateFieldValues` | src/supernote_module_generator/cpp_object_binding_codegen.py:256-274 | its field sequence |
| `EmittedEngine.ToJsValue` | src/supernote_module_generator/cpp_object_binding_codegen.py:481-580 | the emitted `to_js` computes `EmittedOutput.ToJs` |
| `EmittedEngine.RetainNativeValue` | src/supernote_module_generator/cpp_object_binding_codegen.py:583-617 | the emitted `retain_native` appends what `EmittedOutput.RetainNative` says |
| `Preflight.ValidationIsExact` | src/supernote_module_generator/cpp_object_binding_codegen.py:133-276 | the preflight walk accepts if and only if the value is typed, fits every limit, and its visits and object handles are affordable |
| `Preflight.HandlesAreCharged` | src/supernote_module_generator/cpp_object_binding_codegen.py:133-276 | the full byte cost is at least what the preflight pays for handles |
| `Preflight.PreflightAgrees` | src/supernote_module_generator/cpp_object_binding_codegen.py:1133-1214 | for every argument list the call succeeds if and only if the preflight does and the full byte cost is within the limit; the preflight then counted the same visits and no more bytes |
| `EmittedFailures.PreflightForetells` | src/supernote_module_generator/cpp_object_binding_codegen.py:133-276 | on every value the preflight blames the type wherever the call does, and a limit only where the call does |
| `PreflightLimits.TextlessPreflightDecides` | src/supernote_module_generator/cpp_object_binding_codegen.py:1133-1214 | for parameters without strings, buffers and enums the preflight accepts precisely the argument lists the call accepts, under any limits that allow 48 bytes a visit |
| `PreflightLimits.ShippedPreflightDecides` | src/supernote_module_generator/conversion.py:60-90 | the limits every generated kernel is rendered with are such limits |
| `PreflightLimits.PreflightAloneIsNotEnough` | src/supernote_module_generator/cpp_object_binding_codegen.py:1133-1214 | under those limits three full buffers are accepted by the preflight and refused by the call |
| `Lexer.ConsumeNewlines` | src/supernote_module_generator/cpp_lexer.py:45-56 | counts the line feeds of a span and returns the start of the line it ends on |
| `Lexer.Lexer.Lex` | src/supernote_module_generator/cpp_lexer.py:91-96 | for every text the lexer ends and gives a complete, faithful account of it: pieces in order and disjoint, only white space between them, each piece what has to be read at its place, with its value, line and depths |
| `Lexer.Lexer.ConsumeTokenOrTrivia` | src/supernote_module_generator/cpp_lexer.py:98-130 | every step strictly advances and keeps the account |
| `Lexer.Lexer.LineSoFarIsBlank` | src/supernote_module_generator/cpp_lexer.py:111 | the directive test reads the true start of the line, whatever literals came before |
| `Lexer.Lexer.ConsumeDirective` | src/supernote_module_generator/cpp_lexer.py:132-168 | appends the directive that starts here, up to the first line feed no odd run of backslashes escapes, under the line it starts on, moves the conditional depth by its name, and changes nothing else |
| `Lexer.Lexer.ConsumeLineComment` | src/supernote_module_generator/cpp_lexer.py:170-185 | appends the comment up to the line feed with its text, line, depths and whether it stands alone, and changes nothing else |
| `Lexer.Lexer.ConsumeBlockComment` | src/supernote_module_generator/cpp_lexer.py:187-193 | passes over a block comment, counts its lines and records nothing |
| `Lexer.Lexer.ConsumeRawString` | src/supernote_module_generator/cpp_lexer.py:195-210 | appends one token up to the end of the raw string under its first line, and counts the lines inside |
| `Lexer.Lexer.ConsumeQuotedString` | src/supernote_module_generator/cpp_lexer.py:212-236 | appends one token up to the closing quote under the line the scan ends on |
| `Lexer.Lexer.ScanQuoted` | src/supernote_module_generator/cpp_lexer.py:212-225 | the scan counts every line feed of the literal except escaped ones |
| `Lexer.Lexer.ConsumeIdentifier` | src/supernote_module_generator/cpp_lexer.py:238-255 | appends the longest run of identifier characters as one token |
| `Lexer.Lexer.ConsumePunctuation` | src/supernote_module_generator/cpp_lexer.py:257-284 | appends the first listed long form that starts here, or one character; an active brace moves the depth, which never goes below zero |
| `LexModel.BlockEndsFirst` | src/supernote_module_generator/cpp_lexer.py:187-193 | a block comment ends with the first closing after its opening |
| `LexShapes.PiecesAreDecided` | src/supernote_module_generator/cpp_lexer.py:98-130 | what is read at a place is decided by the characters there: directive, comment, literal or identifier, each with its exact condition |
| `LexShapes.QuotedEndsFirst` | src/supernote_module_generator/cpp_lexer.py:212-225 | a quoted literal ends with the first quote of its kind that no odd run of backslashes escapes, or never |
| `LexShapes.NamesAndLiteralsAre` | src/supernote_module_generator/cpp_lexer.py:238-255 | a name is the longest run of alphanumerics and underscores, with the characters of the text as its value; a quote of either kind opens a literal |
| `LexShapes.DirectiveEndsFirst` | src/supernote_module_generator/cpp_lexer.py:132-152 | a directive ends with the first line feed that no odd run of backslashes escapes, or never |
| `LexShapes.DirectiveNameIs` | src/supernote_module_generator/cpp_lexer.py:153-163 | its name is the word after the `#` and any blanks |
| `LexShapes.NamedDirectivesAre` | src/supernote_module_generator/cpp_lexer.py:153-163 | and a directive that is given a name has such a word |
| `LexShapes.PunctuationIs` | src/supernote_module_generator/cpp_lexer.py:257-284 | each of the five long forms is read exactly where it stands, and one character elsewhere |
| `LexShapes.BlankBeforeIs` | src/supernote_module_generator/cpp_lexer.py:111 | a line is blank so far when only white space stands between the last line feed and the place |
| `LexConditions.DepthCountsTheUnclosed` | src/supernote_module_generator/cpp_lexer.py:164-168 | the conditional depth is the number of directives named `if`, `ifdef` or `ifndef` whose count, up for those names and down for `endif`, has not come back to zero |
| `LexConditions.ConditionalDepthIsExact` | src/supernote_module_generator/cpp_lexer.py:164-168 | on every text the depth recorded with a token or comment is the number of conditionals before it that are unclosed there; it is zero exactly when there is none |
| `LexConditions.ActiveIffUnhidden` | src/supernote_module_generator/cpp_declarations.py:291 | so the declaration scanner looks at exactly the tokens that no unclosed conditional stands before |
| `LexRaw.RawStringsAreStandard` | src/supernote_module_generator/cpp_lexer.py:59-76 | over the basic source character set a raw string is read exactly where section 5.13.5 of ISO C++ 2017 has one: a prefix, at most 16 d-chars and a parenthesis |
| `LexRaw.DelimitersAre` | src/supernote_module_generator/cpp_lexer.py:71-73 | over all characters the delimiters are the d-char sequences, but for visible characters outside that set |
| `LexRaw.BeyondInAscii` | src/supernote_module_generator/cpp_lexer.py:71-73 | among the ASCII characters those are `$`, `@`, the grave accent and the controls that are no white space |
| `LexRaw.RawClosesFirst` | src/supernote_module_generator/cpp_lexer.py:74-76 | the raw string ends with the first closing parenthesis that its delimiter and a quote follow |
| `LexRaw.ClosingIs` | src/supernote_module_generator/cpp_lexer.py:74-76 | a closing is a parenthesis, the characters of the delimiter again, and a quote |
| `LexModel.TokensAreOrdered` | src/supernote_module_generator/cpp_lexer.py:91-96 | tokens are nonempty, in order, in bounds and disjoint |
| `LexModel.TokensRecordDepth` | src/supernote_module_generator/cpp_lexer.py:257-284 | every token records the clamped depth left by the active braces before it |
| `LexModel.CommentsRecordDepth` | src/supernote_module_generator/cpp_lexer.py:170-185 | every comment records the depth left by exactly the tokens that end before it |
| `LexModel.LinesAreExact` | src/supernote_module_generator/cpp_lexer.py:45-56 | in a text where no literal escapes a line feed every recorded line is one plus the line feeds before it |
| `LexLines.LineIsExactIff` | src/supernote_module_generator/cpp_lexer.py:212-225 | for every record: it is short by the line feeds skipped so far, and its line is exact if and only if no quoted literal that ends before it has a line feed inside behind an odd run of backslashes |
| `LexLines.QuotedLineIsExactIff` | src/supernote_module_generator/cpp_lexer.py:212-236 | a quoted literal carries the line it ends on, exact under the same condition, itself included |
| `LexLines.SkippedAreEscaped` | src/supernote_module_generator/cpp_lexer.py:212-225 | the scan of a literal skips a line feed exactly where the text escapes one |
| `LexLines.EscapedLineFeedIsLost` | src/supernote_module_generator/cpp_lexer.py:212-225 | a concrete text on whose third line a name is recorded as on the second |
| `LexUnique.AccountsAreUnique` | src/supernote_module_generator/cpp_lexer.py:91-284 | a text has one faithful account: bounds, kinds, values, lines and depths of all tokens, comments and directives are determined |
| `Braces.MatchIsCounting` | src/supernote_module_generator/cpp_class_syntax.py:99-111 | for every active opening brace the first later closing brace recorded one deeper is the brace found by counting, clamped depths and skipped regions included |
| `Braces.ClassBodyClose` | src/supernote_module_generator/cpp_class_syntax.py:93-111 | the counting loop returns the brace of the recorded depth |
| `Braces.SkipBracedBody` | src/supernote_module_generator/cpp_members.py:106-115 | the cursor stops just past that brace, or at the end |
| `Braces.ActiveTokensAreRecorded` | src/supernote_module_generator/cpp_lexer.py:257-284 | the active tokens alone carry depths that step brace by brace |
| `Braces.ActiveTokensAre` | src/supernote_module_generator/cpp_declarations.py:291 | the active tokens are exactly those recorded under no conditional |
| `Braces.OpenBracesAreTheStack` | src/supernote_module_generator/cpp_lexer.py:257-284 | the depth recorded at a token is the number of active braces open there, each on its own level |
| `Namespaces.NamespaceOpening` | src/supernote_module_generator/cpp_declarations.py:404-421 | the cursor loop reads `name (:: name)* {` or nothing |
| `Namespaces.NamespaceAt` | src/supernote_module_generator/cpp_declarations.py:288-300 | path and depth are those of the named namespaces whose bodies contain the offset |
| `Namespaces.HeadingsAreDisjoint` | src/supernote_module_generator/cpp_declarations.py:404-421 | no heading starts inside another, so each opening brace is claimed by at most one |
| `Namespaces.NamespaceScopeIsExact` | src/supernote_module_generator/cpp_declarations.py:288-309 | the recorded depth equals the namespace depth if and only if every brace open at the offset belongs to a named namespace that is closed later |
| `Namespaces.RangesAreNested` | src/supernote_module_generator/cpp_declarations.py:297 | the ranges around an offset are nested, outermost first, so the sort changes nothing |
| `ScopePaths.HeadingIff` | src/supernote_module_generator/cpp_declarations.py:404-421 | a heading is read exactly where the keyword, identifiers with `::` between them and a brace stand, with the identifiers as its names in order |
| `ScopePaths.RangesAre` | src/supernote_module_generator/cpp_declarations.py:288-300 | a range is reported exactly for each heading whose braces contain the offset, with its names and its brace |
| `ScopePaths.PathSplits` | src/supernote_module_generator/cpp_declarations.py:288-300 | the path runs through the ranges in order, with all names of each |
| `ScopePaths.OuterNamesComeFirst` | src/supernote_module_generator/cpp_declarations.py:288-300 | of two namespaces around an offset the outer one contributes its names first |
| `Scopes.AccountsAreScannable` | src/supernote_module_generator/cpp_lexer.py:91-96 | what the consumers of the scanner rely on holds of every lexed text |
| `Scopes.MarkerScopeIsExact` | src/supernote_module_generator/cpp_declarations.py:302-309 | the test that opens class discovery is exact on every source text |
| `Scopes.TopLevelClassExtents` | src/supernote_module_generator/binding_codegen.py:1735-1768 | the loop returns the extents of the classes at namespace scope |
| `Scopes.ExtentsAreSound` | src/supernote_module_generator/binding_codegen.py:1745-1768 | a reported class stands in named namespaces only and ends at the brace counting finds |
| `Scopes.OmissionsAreSound` | src/supernote_module_generator/binding_codegen.py:1741-1768 | a class is passed over only as an enum class, inside another scope, without a body, or unclosed |
| `ScopePaths.ExtentsAreTheDefinitions` | src/supernote_module_generator/binding_codegen.py:1735-1768 | the extents are exactly the class definitions: `class` or `struct`, not of an enum, in named namespaces only, whose first brace comes before any semicolon and is closed by counting, each with its own opening and closing brace |
| `ScopePaths.ExtentsAreInOrder` | src/supernote_module_generator/binding_codegen.py:1735-1768 | each is reported once, in the order of the file |
| `CppRegistry.TabulatedIsExact` | src/supernote_module_generator/cpp_projection.py:89-101 | the table exists if and only if no qualified name is listed twice, and then holds exactly what was listed |
| `CppRegistry.ClassesAreListed` | src/supernote_module_generator/cpp_projection.py:78-82 | each class is listed under its qualified and its public name as the object or else the value it declares, and not when it only owns members |
| `CppRegistry.EnumsAreListed` | src/supernote_module_generator/cpp_projection.py:83-87 | and every enum as an enum |
| `CppRegistry.CppTypeRegistry.constructor` | src/supernote_module_generator/cpp_projection.py:70-77 | the registry starts empty |
| `CppRegistry.CppTypeRegistry.Add` | src/supernote_module_generator/cpp_projection.py:89-101 | adds a type under its qualified and its public name, or refuses a duplicate and changes nothing |
| `CppRegistry.CppTypeRegistry.AddAll` | src/supernote_module_generator/cpp_projection.py:78-87 | filling from the scanned classes and enums gives their table, or fails on a duplicate; a class that only owns members is skipped |
| `CppRegistry.CppTypeRegistry.Lookup` | src/supernote_module_generator/cpp_projection.py:103-131 | exact match for a scoped name, otherwise the innermost enclosing namespace, then a public name only one type has |
| `CppRegistry.TemplateInner` | src/supernote_module_generator/cpp_projection.py:144-157 | the argument of a template: balanced, with no comma of its own |
| `CppParsing.ScalarNamesAre` | src/supernote_module_generator/cpp_projection.py:47-58 | a text names a scalar if and only if it is its printed name, or that of a fixed-width integer without `std::` |
| `CppParsing.ScalarsAreRead` | src/supernote_module_generator/cpp_projection.py:160-215 | in every position a spelling is read as a scalar if and only if its normal form is one of its names |
| `CppParsing.ClosingDepthIs` | src/supernote_module_generator/cpp_projection.py:144-157 | the depth a template argument ends at is the difference of its brackets, unless a comma stands outside all of them |
| `CppParsing.InnerIff` | src/supernote_module_generator/cpp_projection.py:144-157 | the argument of a template is what stands between its brackets, if not empty, balanced and without a comma of its own, and nothing else is |
| `CppParsing.ContainersAreRead` | src/supernote_module_generator/cpp_projection.py:160-215 | a vector is read through its element, an optional too unless the element is optional itself |
| `CppParsing.InnermostIsResolved` | src/supernote_module_generator/cpp_projection.py:103-131 | an unscoped name, rooted or not, is the declaration of the innermost namespace around the reader that has one |
| `CppParsing.OthersAreResolvedByName` | src/supernote_module_generator/cpp_projection.py:103-131 | without one it is the only type of that public name; it is ambiguous exactly when there are several, and unknown exactly when there is none |
| `CppParsing.ScopedNamesAreExact` | src/supernote_module_generator/cpp_projection.py:103-131 | a scoped name is looked up as it stands, rooted or not |
| `CppParsing.IdentitiesDiffer` | src/supernote_module_generator/cpp_projection.py:202-256 | within a feature different public names give different identities |
| `CppParsing.NormalisingIsInvisible` | src/supernote_module_generator/cpp_projection.py:134-141 | normalisation changes nothing but white space |
| `CppParsing.NormalFormsAreSinglySpaced` | src/supernote_module_generator/cpp_projection.py:134-141 | a normal form has no white space but single spaces between visible characters |
| `CppRoundTrip.PrintedNamesResolve` | src/supernote_module_generator/cpp_projection.py:103-131 | a printed name reads as its own type if and only if it is scoped or no namespace around the reader declares the same name; the leading `::` makes no difference |
| `CppRoundTrip.RootedNamesStayPut` | src/supernote_module_generator/cpp_projection.py:103-131 | the exact condition, for every unscoped name, registered or not, under which `::x` is read as the `x` of the root namespace or refused: no namespace around the reader declares `x`, and when the root does not either, it is not the public name of exactly one type |
| `CppRoundTrip.UnmarkedGlobalIsMisread` | src/supernote_module_generator/cpp_projection.py:103-131 | a projection in which it fails, with unique names: only `a::T` is marked, and the unmarked global `::T` is accepted as `a::T`, inside `a` and from the root |
| `CppRoundTrip.PrintedTypesParse` | src/supernote_module_generator/cpp_projection.py:160-268 | parsing undoes printing in every position, from every namespace that hides no name of the type |
| `CppRoundTrip.UniqueNamesRoundTrip` | src/supernote_module_generator/cpp_object_binding_codegen.py:40-66 | with unique public names that is every namespace |
| `CppRoundTrip.SpellingsAreDistinct` | src/supernote_module_generator/cpp_object_binding_codegen.py:40-66 | no two types share a spelling; the byte buffer and the arrays in particular |
| `CppRoundTrip.AcceptedSpellingsAreWellFormed` | src/supernote_module_generator/cpp_projection.py:160-268 | every accepted spelling denotes a well-formed type: no nested void, no nullable of a nullable, references of the right kind |
| `CppRoundTrip.CanonicalSpelling` | src/supernote_module_generator/cpp_projection.py:160-268 | and its printed spelling is accepted for the same type, so each accepted spelling has a canonical one |
| `CppForms.FormsAreExact` | src/supernote_module_generator/cpp_projection.py:202-256 | what each of the sixteen spellings of a registered name is read as, rooted or not, by value, by reference, constant or shared, in each position |
| `CppForms.JoinedIsRefused` | src/supernote_module_generator/cpp_projection.py:134-141 | normalisation joins `const` to a rooted name, so `const ::q` and `const ::q&` are refused |
| `CppSpelling.TightenedIsGlued` | src/supernote_module_generator/cpp_type_syntax.py:48-53 | the four substitutions leave a space exactly between two adjacent identifiers |
| `CppSpelling.SpelledIff` | src/supernote_module_generator/cpp_type_syntax.py:28-47 | a token list has a spelling if and only if it is not empty, made of identifiers and the four marks, with as many `<` as `>` and no `&` but the last token |
| `CppRelex.SpellingRelexes` | src/supernote_module_generator/cpp_type_syntax.py:28-53 | the spelling of an accepted token list lexes to the same token values and nothing else |
| `CppRelex.SpellingsDetermineTokens` | src/supernote_module_generator/cpp_type_syntax.py:28-53 | distinct accepted token lists never share a spelling |
| `Registry.CppObjectRegistry.constructor` | src/supernote_module_generator/cpp_object_runtime_codegen.py:154-160 | the registry starts without entries and without a runtime |
| `Registry.CppObjectRegistry.AssertRuntime` | src/supernote_module_generator/cpp_object_runtime_codegen.py:232-239 | the first caller binds the runtime; another runtime is refused |
| `Registry.CppObjectRegistry.WrapInstance` | src/supernote_module_generator/cpp_object_runtime_codegen.py:165-206 | the erasing pass and the insertion compute `RegistryModel.Wrap` on the list in place, with the environment moving before each step |
| `Registry.CppObjectRegistry.PurgeEntries` | src/supernote_module_generator/cpp_object_runtime_codegen.py:208-218 | the purge computes `RegistryModel.Purge` on the list in place, with the environment moving before each step |
| `RegistryModel.PurgeKeepsTheLive` | src/supernote_module_generator/cpp_object_runtime_codegen.py:208-218 | whatever dies while a purge runs, it keeps everything that is live when it ends and nothing that was dead when it began |
| `RegistryModel.PurgeIsSafe` | src/supernote_module_generator/cpp_object_runtime_codegen.py:208-218 | a purge refuses another runtime without effect, and otherwise changes the live map by the deaths beside it only |
| `RegistryModel.WrapRefinesTheMap` | src/supernote_module_generator/cpp_object_runtime_codegen.py:165-206 | with owners expiring and objects collected before any step of the scan and before the insertion, `wrap` is a lookup-or-insert on the live map, with one answer in every case: another runtime, a null instance and a contested address are refused as such; otherwise an object is returned if a live one exists or the factory makes one, and the call fails only when there is neither. An accepted runtime is bound, and every outcome without an object changes the map by those deaths only |
| `RegistryModel.WrapReturnsTheExistingObject` | src/supernote_module_generator/cpp_object_runtime_codegen.py:177-193 | whenever a live object exists for the owner and outlives the call, exactly that object is returned |
| `RegistryModel.RunsKeepInv` | src/supernote_module_generator/cpp_object_runtime_codegen.py:107-218 | under any interleaving of wraps, purges, expiries, collections and address reuse, between calls and beside them, unexpired entries have pairwise distinct type and address |
| `RegistryModel.IdentityIsStable` | src/supernote_module_generator/cpp_object_runtime_codegen.py:165-206 | an instance once wrapped gives the same object after any run, while its owner and that object live, whatever dies beside the two calls |
| `RegistryModel.ObjectsAreNotShared` | src/supernote_module_generator/cpp_object_runtime_codegen.py:165-206 | distinct live instances never share a JavaScript object |
| `Publication.GenerationPlanExecutor.constructor` | src/supernote_module_generator/generation_execution.py:24-35 | the executor starts from the tree it is given |
| `Publication.GenerationPlanExecutor.DeleteStaleOutput` | src/supernote_module_generator/generation_execution.py:96-104 | the deletion loop performs the stale deletions in order, as far as it gets |
| `Publication.GenerationPlanExecutor.PublishOutput` | src/supernote_module_generator/generation_execution.py:106-129 | the artifact loop performs the uploads in order, as far as it gets |
| `Publication.GenerationPlanExecutor.Execute` | src/supernote_module_generator/generation_execution.py:37-48 | a run reaches the end exactly when no step fails, and otherwise leaves the tree after the steps it made |
| `PublicationModel.CompletionPublishes` | src/supernote_module_generator/generation_execution.py:37-48 | a completed finalizing run leaves each artifact, no stale path, no marker, and everything else as it was |
| `PublicationModel.CrashesAreDetectable` | src/supernote_module_generator/generation_execution.py:37-48 | from a tree without a marker, wherever the run stops, an absent marker means that nothing changed or everything is published |
| `PublicationModel.ManifestIsLast` | src/supernote_module_generator/generation_execution.py:113-129 | a new manifest is present only when finalizing and after every deletion and every other artifact |
| `PublicationModel.BootstrapNeverFinalizes` | src/supernote_module_generator/generation_execution.py:121-123 | a non-finalizing run neither clears the marker nor publishes the manifest |
| `PublicationModel.OtherPathsAreKept` | src/supernote_module_generator/generation_execution.py:37-48 | no path outside artifacts, deletes and the marker is changed, nor a manifest that is only deleted |
| `PublicationModel.RerunsConverge` | src/supernote_module_generator/generation_execution.py:37-48 | after any interrupted or non-finalizing attempts at a plan, a run that completes leaves exactly the tree of one undisturbed run |
| `PublicationModel.BootstrapIsAbsorbedIff` | src/supernote_module_generator/feature_cli_operations.py:178-190 | after a complete bootstrap of another plan the final run leaves its undisturbed tree if and only if the bootstrap changed only paths the final plan decides |
| `PublicationModel.BootstrapIsAlwaysAbsorbedIff` | src/supernote_module_generator/feature_cli_operations.py:178-190 | on every tree, if and only if each path the bootstrap renders or deletes, the manifest aside, is rendered or deleted by the final plan |
| `PublicationModel.StoppedBootstrapIsAbsorbed` | src/supernote_module_generator/feature_cli_operations.py:178-190 | under that condition a bootstrap that stops anywhere is absorbed too |
| `PublicationModel.PublishOrderIsSorted` | src/supernote_module_generator/generation_execution.py:113-119 | the publishing order is the order of the sort key, and a permutation of the artifacts |
| `PublicationModel.UploadsAreAllowed` | src/supernote_module_generator/generation_execution.py:120-129 | walking that order and holding the manifest back gives the uploads of the run |
| `PublicationOrder.BeforeIsLexicographic` | src/supernote_module_generator/generation_execution.py:113-119 | the order of the paths is lexicographic: by the first difference, and a prefix before what it begins |
| `PublicationOrder.DeletionsKeepTheirOrder` | src/supernote_module_generator/generation_execution.py:97-104 | stale files are deleted in the order the plan lists them |
| `PublicationOrder.StepsAreInTurn` | src/supernote_module_generator/generation_execution.py:37-48 | a run sets the marker, deletes, uploads by path with the manifest last, and clears the marker if it finalizes |
| `SourceTree.QueueChildren` | npm/supernote-runtime/resolve-packages.js:169-194 | the child loop queues the subdirectories in order and accepts only listed files |
| `SourceTree.RequireHashedSourceTree` | npm/supernote-runtime/resolve-packages.js:144-196 | the worklist ends on every finite directory graph, links and cycles included, and accepts if and only if every reachable directory is readable and has one relative path, every reachable file is listed, and nothing else is reachable |
| `PropertiesModel.LogicalLinesAreComplete` | src/supernote_module_generator/doctor.py:57-84 | every logical line has an even run of trailing backslashes |
| `PropertiesModel.FragmentsAreClosed` | src/supernote_module_generator/doctor.py:128-161 | neither fragment of such a line ends in an open escape |
| `PropertiesModel.TrailingEscapeIsUnreachable` | src/supernote_module_generator/doctor.py:87-161 | no file whatever reaches the trailing-escape failure |
| `Properties.ReadLogicalLines` | src/supernote_module_generator/doctor.py:57-84 | the line loop computes the logical lines with the number each started on |
| `Properties.SplitProperty` | src/supernote_module_generator/doctor.py:128-161 | the index scans compute the split |
| `Properties.DecodeFragment` | src/supernote_module_generator/doctor.py:87-125 | the decoding loop computes the code points or the first failure |
| `Properties.ParseJavaProperties` | src/supernote_module_generator/doctor.py:164-173 | the reader returns the entries, or the failure of the first failing fragment, key before value, and never a trailing escape |
| `PropertiesRoundTrip.EscapedTextIsDecoded` | src/supernote_module_generator/doctor.py:87-125 | decoding undoes the reference escaper on every Unicode text |
| `PropertiesRoundTrip.WrittenLineIsSplit` | src/supernote_module_generator/doctor.py:128-161 | an escaped key and value split back into themselves |
| `PropertiesRoundTrip.WrittenFilesAreRead` | src/supernote_module_generator/doctor.py:57-173 | reading a written file returns its properties in order with their line numbers |
| `PropertiesLayout.WovenLinesAreRead` | src/supernote_module_generator/doctor.py:57-84 | whichever of the three line ends stand between them, the natural lines are the lines |
| `PropertiesLayout.FoldedLinesAreRead` | src/supernote_module_generator/doctor.py:57-84 | a line folded anywhere outside an escape, with any indentation of its parts, is read as the line it was, under the number of its first part |
| `PropertiesLayout.StyledLinesAreSplit` | src/supernote_module_generator/doctor.py:128-161 | key and value are found with `=`, `:` or blanks alone between them, blanks around either, and an indentation |
| `PropertiesLayout.LaidOutFilesAreRead` | src/supernote_module_generator/doctor.py:57-173 | a file returns its properties in order with their line numbers however it is laid out: line ends, folds, blanks, separators, comments and empty lines |
| `PropertiesGrammar.HexDigitsAre` | src/supernote_module_generator/doctor.py:87-125 | the value of a hexadecimal digit is its place among the sixteen, in either case |
| `PropertiesGrammar.PiecesDecode` | src/supernote_module_generator/doctor.py:87-125 | a text made of plain characters, escaped ones and four-digit escapes decodes to the units these denote |
| `PropertiesGrammar.EveryTextIsPieces` | src/supernote_module_generator/doctor.py:87-125 | every other text fails, at the place where no such piece stands and for the reason found there |
| `PropertiesGrammar.DecodesIffEncoding` | src/supernote_module_generator/doctor.py:87-125 | units decode to characters if and only if they are the UTF-16 encoding of some text |
| `PropertiesGrammar.DecodedIsEncoded` | src/supernote_module_generator/doctor.py:87-125 | and then of exactly the text they decode to |

## Findings

What the proofs show the code does not do.

- `src/supernote_module_generator/cpp_projection.py:103-117`: a leading `::` is dropped before an
  unscoped name is looked up, so `::T` can name a type that is not in the global namespace. With
  only `a::T` marked, an unmarked global `::T` is accepted as `a::T`, inside `a` and outside it
  (`CppRoundTrip.UnmarkedGlobalIsMisread`; the exact condition is `CppRoundTrip.RootedNamesStayPut`).
- `src/supernote_module_generator/cpp_projection.py:134-141`: white space is removed around `::`
  first, which turns `const ::ns::T&` into `const::ns::T&`. A rooted name can therefore not be
  borrowed as constant, although `const ns::T&` can (`CppForms.JoinedIsRefused`; all forms are in
  `CppForms.FormsAreExact`).
- `src/supernote_module_generator/cpp_object_binding_codegen.py:133-276`: the preflight reserves
  bytes for object handles only, so under the limits that ship it accepts arguments, three full
  buffers for instance, whose call then exceeds the byte limit
  (`PreflightLimits.PreflightAloneIsNotEnough`; the exact condition is `Preflight.PreflightAgrees`).
  Parameters without strings, buffers and enums are never affected
  (`PreflightLimits.ShippedPreflightDecides`).
- `src/supernote_module_generator/cpp_lexer.py:216-218`: an escaped line feed inside a quoted
  literal is stepped over without being counted, and shifts every later line number of the file
  (`LexLines.EscapedLineFeedIsLost`; the exact deviation is `LexLines.LineIsExactIff`).

## Left out

- Diagnostic wording and value paths of the converters: only success, the kind of failure and the state are kept.
- Strings: Unicode scalar values with the byte lengths of section 3 of RFC 3629; lone surrogates in JavaScript strings are not modelled.
- Numbers: a finite double is its exact value; the rounding of the emitted cast to `float` is not modelled, only its range check.
- JavaScript objects: a record is its own plain properties; getters, proxies and arguments that change during a call are not modelled.
- Native values in `to_js`: C++ types fix their shape, so values of another shape are refused by the model where no program can pass them.
- The JVM conversion kernel, which mirrors the C++ one.
- Character classification: white space, letters and alphanumerics are parameters of the lexer, constrained only on the punctuation the lexer names, and in `LexRaw` on the ASCII white space.
- Declaration routing above the scanner, such as `marker_stacks`, `class_stack_route` and parameter grouping: short case analyses over the facts proved here.
- Enum constants: `_parse_cpp_enum_source` finds its braces by the matching proved in `Braces`; its scan for constants is not modelled.
- Which converters are emitted: `_collect_types` is not modelled; the emitted functions are taken to exist for every type.
- The parser without a type registry, which knows scalars only.
- Type names: the registry holds identifiers joined by `::`, as the scanner delivers them; no namespace is called `const`.
- Steps of a registry call: owners expire and objects are collected before a step of the scan and before the insertion, not inside one.
- Filesystem: a map from paths to contents; staging directory, file modes, links and locks are left out, and every step, a precondition included, may be where a run stops.
- Plan contents: the marker is neither an artifact nor a delete, which `generation_service.py:966-994` ensures by confining owned paths.
- Directory graphs: relative paths are sequences of names, and resolving an entry is a lookup in the graph.
- Properties bytes: read as ISO-8859-1 characters; surrogate pairs combine as UTF-16 prescribes.
- The legacy JNI and JSI renderers, TypeScript output, command line and build tooling.
