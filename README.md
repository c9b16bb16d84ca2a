# cycles: a verified model of its option handling, group-list parser and privilege drop

`cycles` counts the instructions a command executes. It opens a hardware counter,
forks, and runs the command in the child. Before `execve` the child can take on
another identity, chosen with `-u user` and `-g list`. This project models the logic
in `cycles.c` that decides that identity and the order of the child's actions, and
proves properties of that model.

- `GroupListParser` (`grouplist.dfy`) models `arrayofuint`, the parser of the `-g`
  list. It collects decimal numbers and group names separated by white space, `:`
  or `,`, and looks each name up in the group database. It stops once the capacity
  is used up and refuses any other character between elements.
  - `ArrayOfUint` is the cursor parser itself, over an `array` and a 32-character
    name buffer.
  - It is proved to compute `GroupList`, a reference meaning built in two layers:
    `Lex` cuts the text into tokens, then `Resolve` turns the tokens into ids.
  - `ResolveAsWritten` is the element loop exactly as the source has it (see
    Findings).
- `GroupListLaws` (`grouplist_laws.dfy`) states what the parser promises:
  - elements come out in order;
  - delimiters add nothing;
  - `12abc` is a number and then a name;
  - capacity;
  - illegal characters;
  - unknown and over-long names;
  - the capacity defect of the source as written.
- `Privilege` (`privilege.dfy`) models `setuidgid`.
  - The process credentials are a class `Credentials`, holding the supplementary
    groups, the group ids, the user ids and the log of calls made.
  - The kernel's verdict on each call is an oracle `ok`, and `getpwuid` is a lookup
    from a uid to its primary gid.
  - `Plan` lists the calls `setuidgid` makes when they all succeed, and `Execute`
    says what a fallible run of a plan leaves behind.
- `Cycles` (`cycles.dfy`) models `main` up to `execve`.
  - `-u` is resolved through the account database, or else as a decimal number.
    `strtoul` saturates it at `ULONG_MAX` and the `(uid_t)` cast reduces it modulo
    2^32.
  - `-g` goes to `ArrayOfUint` over a fixed array of 10 ids.
  - A later option replaces an earlier one.
  - The child's actions form an event trace. `Run` is the method; `Expected` is its
    specification.
- `CyclesLaws` (`cycles_laws.dfy`) states what `main` promises:
  - option and command errors come before the counter is opened and before `fork`;
  - last one wins;
  - the child's order of actions;
  - fail-closed: no action after a refused credential call;
  - the identity the command runs with.
- `CType` holds the C-locale character classes and decimal numerals. `Wrappers`
  holds `Option` and `Result`.

The environment is a set of parameters. The account and group databases, the
counter, `fork`, the kernel's verdicts and `execve` are all oracles; the `System`
datatype collects those of `main`.

Three behaviours of the code are worth knowing.

- A user id of 0 means the user ids are left alone. A `-g` list is still applied,
  though: `setuidgid` sets the groups whatever the uid is (`Privilege.PlanGroupList`).
  "Root keeps its identity" therefore holds only without `-g`.
- The cast to `uid_t` wraps around. `-u 4294967296` asks for uid 0, which keeps the
  caller's identity (`CyclesLaws.WrapsToRoot`).
- `-u 4294967295`, and any numeral beyond `ULONG_MAX`, asks for uid `(uid_t)-1`.
  `setresuid` reads that as "leave this id as it is", so the command runs with the
  caller's uid (`CyclesLaws.UnchangedUserKeepsCaller`).

## Model

| member | source | states |
|---|---|---|
| GroupListParser.ArrayOfUint | cycles.c:72-111 | On success it returns the number of ids, and the array's first slots hold exactly the ids of `GroupList` while every later slot is unchanged. On failure it returns `GroupList`'s error (unknown group or illegal character). |
| GroupListParser.GroupList | cycles.c:88-90 | A successful parse never yields more than `maxidx` ids. |
| GroupListParser.Resolve | cycles.c:80-110 | It appends at most `room` ids and at most one id per token, and never drops ids already collected: the ids collected so far are a prefix of the result. |
| GroupListParser.GroupListAsWritten | cycles.c:72-111 | The parse of a string as the source has it yields at most one id per token, and so per character. Nothing bounds it by `maxidx` (see `AsWrittenOverflow`). |
| GroupListParser.ResolveAsWritten | cycles.c:100-103 | As written, the ids stored are bounded only by the number of tokens, not by `maxidx`. |
| GroupListParser.Lex | cycles.c:80-109 | The text never yields more tokens than it has characters. |
| GroupListParser.LexAfterName | cycles.c:99-109 | The text after a name token never yields more tokens than it has characters. |
| GroupListParser.DigitRun | cycles.c:83-87 | The length of the maximal run of digits at the front: all digits, and the next character is not a digit. |
| GroupListParser.NameRun | cycles.c:95-98 | The length of the maximal run of letters, digits and `_` at the front. |
| GroupListParser.ScanNumber | cycles.c:81-87 | The inner digit loop reads the whole digit run. Its value is the run's decimal value, and what it consumed is one numeric token. |
| GroupListParser.ScanName | cycles.c:92-99 | The name loop copies name characters into the 32-byte buffer. It stops at 31 characters or at the first non-name character, and what it consumed is one name token. |
| GroupListParser.NumberElement | cycles.c:81-88 | A number is stored in the next slot (`arr[idx++] = v`), and the rest of the parse continues from the following character. |
| GroupListParser.NameElement | cycles.c:99-103 | A name the group database does not know is the parse's error. A known one has its gid stored in the next slot. |
| GroupListParser.Terminator | cycles.c:105-108 | At the end of the string the count is returned. After a delimiter the loop continues. Any other character is the illegal-character error. |
| GroupListParser.Element | cycles.c:81-108 | One turn of the element loop either ends the parse with the reference result or continues with the reference meaning of the rest, one element further on. |
| GroupListParser.AfterNumber | cycles.c:89-108 | After a number is stored: when it fills the last slot the parse ends with the reference result. Otherwise the name part and terminator test follow, with the guarantee of `Element`. |
| GroupListParser.NameOrEnd | cycles.c:92-108 | The name part and the terminator test of one turn, with the same guarantee as `Element`. |
| GroupListParser.AfterName | cycles.c:100-108 | After a name is read: an unknown name ends the parse with `UnknownGroup`. A known name that fills the last slot ends it with the reference result, because the corrected capacity check applies. Otherwise the terminator test follows, with the guarantee of `Element`. |
| GroupListLaws.ResolveMeaning | cycles.c:80-110 | The parse succeeds iff every token within the capacity is a number or a known name. It then yields their ids in order; otherwise it fails with the error of the first bad token. |
| GroupListLaws.LexShape | cycles.c:80-109 | There are never more tokens than characters. Every name is a valid name of at most 31 characters, and an illegal character can only be the last token. |
| GroupListLaws.LexStopsAtIllegal | cycles.c:107-108 | A character that is not a digit, letter, `_`, white space, `:` or `,` ends the token stream with an illegal-character token. |
| GroupListLaws.IllegalCharFails | cycles.c:105-108 | A string containing such a character is rejected, unless the capacity is used up before it is reached. |
| GroupListLaws.ExampleIllegal | cycles.c:105-108 | `"1;2"` is rejected with `IllegalChar(';')` for any capacity above 1. With a capacity of 1 it yields `[1]`. |
| GroupListLaws.DelimitersAddNothing | cycles.c:107 | Replacing one delimited tail by another with the same tokens does not change the tokens. |
| GroupListLaws.DelimiterRuns | cycles.c:105-108 | Leading, trailing and doubled delimiters add nothing to the result. |
| GroupListLaws.LexNumberThen | cycles.c:81-91 | A digit run followed by a non-digit is one number token, followed by the tokens of the rest. |
| GroupListLaws.LexNameThen | cycles.c:92-104 | A valid name followed by a delimiter or the end is one name token. |
| GroupListLaws.NumberThenName | cycles.c:81-104 | Digits directly followed by a name are two elements: the number, then the name. |
| GroupListLaws.ExampleNumberThenName | cycles.c:81-104 | `"12abc"` is `12` and then `abc`. |
| GroupListLaws.TooLongName | cycles.c:95-99 | A name of more than 31 characters is cut after 31, and its 32nd character then becomes the illegal-character token. |
| GroupListLaws.LongNameRejected | cycles.c:95-108 | Such a name is never accepted, after any list of known elements that leaves a further slot after the name. The error is `UnknownGroup` of its 31-character prefix if that is unknown, and `IllegalChar` of the 32nd character otherwise. |
| GroupListLaws.LexJoin | cycles.c:80-109 | Elements joined by commas lex to their tokens, in order. |
| GroupListLaws.OrderedElements | cycles.c:80-110 | With every name known, the parse of the comma-joined elements yields their ids in order, up to the capacity, whatever follows once the capacity is used up. |
| GroupListLaws.ExampleList | cycles.c:71-73 | `"1,2,staff"` with `staff` = 50 and capacity 10 yields `[1, 2, 50]`. |
| GroupListLaws.AsWrittenNames | cycles.c:92-104 | As written, a list of known names stores every one of their ids, whatever the capacity. |
| GroupListLaws.AsWrittenOverflow | cycles.c:103 | As written, `maxidx + 1` known names store `maxidx + 1` ids, one past the array. The corrected parse stores `maxidx`. |
| GroupListLaws.AsWrittenAgreesWithoutNames | cycles.c:81-91 | When there are no names, the source as written and the corrected parse agree. |
| GroupListLaws.DigitsStayInside | cycles.c:88-90 | For input made only of digits, delimiters and other non-name characters, the parse as written stays within `maxidx` ids. |
| GroupListLaws.AsWrittenRejectsLongName | cycles.c:95-108 | As written, a name of more than 31 characters is rejected after any list of known elements shorter than the capacity, even when the name fills the last slot, with the same errors as `LongNameRejected`. |
| GroupListLaws.LongNameInLastSlot | cycles.c:88-90 | With the corrected check, a long name whose 31-character prefix is known and that fills the last slot, after any list of known elements, is accepted: the result is the elements' ids followed by that prefix's gid. |
| Privilege.Credentials.Perform | cycles.c:123-141 | Each credential call is logged. A granted call takes its effect, and a refused one changes nothing. `setresuid` and `setresgid` of `(uid_t)-1` leave the ids as they are. |
| Privilege.Credentials.SetUidGid | cycles.c:118-142 | The calls logged are those of `Plan` up to and including the first refused one, and the credentials take the effect of those granted. The result is the failed lookup, the refused call, or success. |
| Privilege.Credentials.DropGroups | cycles.c:121-138 | The same guarantee for the group half of `setuidgid`. |
| Privilege.SetIds | cycles.c:125-141 | `setresgid(id, id, id)` and `setresuid(id, id, id)` set all three ids to `id`, except that `(uid_t)-1` leaves them as they are. |
| Privilege.Effect | cycles.c:123-141 | Each call changes only its own part of the credentials: `setgroups` the groups, `setresgid` the gids, `setresuid` the uids. |
| Privilege.GroupCalls | cycles.c:121-138 | The group half fails iff there is no list, the uid is not root and `getpwuid` does not know it. It makes no call iff there is no list and the uid is root, and otherwise exactly `setgroups` then `setresgid`. |
| Privilege.UserCalls | cycles.c:139-141 | `setresuid(uid)` is made exactly for a non-root uid, and no other call is. |
| Privilege.Plan | cycles.c:118-142 | The plan fails exactly when its group half does, with `NoSuchUser(uid)`. It has at most three calls, and none iff the uid is root and there is no list. |
| Privilege.Execute | cycles.c:123-141 | A failed lookup makes no call. Every call granted was allowed by the kernel. A complete run made and was granted the whole plan. A run cut short made a prefix of the plan whose last call was refused, and that refusal is its error. |
| Privilege.Succeeding | cycles.c:123-141 | The number of calls that succeed before the first refused one: all before it are granted, and the one at it is refused. |
| Privilege.PlanFailsIff | cycles.c:129-132 | The drop fails before any call iff there is no group list, the uid is not root, and `getpwuid` does not know the uid. The error is then `NoSuchUser(uid)`. |
| Privilege.PlanNothingIff | cycles.c:127-141 | No credential call at all is made iff the uid is root and there is no group list. |
| Privilege.PlanOrder | cycles.c:139-141 | `setresuid(uid)` is made only for a non-root uid, exactly once, and as the last call. No group call follows it. |
| Privilege.PlanGroupList | cycles.c:121-126 | A group list goes to `setgroups` exactly as given, and then its first entry to `setresgid`. No other `setgroups` is made, and for root these are the only calls. |
| Privilege.FailClosed | cycles.c:123-141 | The calls `Execute` makes are those up to and including the first refused one. They are a prefix of the plan, and every one except the last was granted. When the plan is cut short, the last call made is the refused one. |
| Privilege.GroupCallsKeepUid | cycles.c:123-136 | Group calls never change the user ids. |
| Privilege.DropOutcome | cycles.c:118-142 | A failed drop never takes on the new uid, and a failed lookup changes nothing. A successful drop has made the whole plan and holds exactly the requested uid, groups and gid: the list, or else the user's primary group with no supplementary groups. An id of `(uid_t)-1` keeps the caller's id instead. |
| Cycles.StrToULong | cycles.c:167 | A digit string's value when that is at most `ULONG_MAX`, and exactly `ULONG_MAX` on overflow. |
| Cycles.ResolveUser | cycles.c:163-170 | An account the database knows gives its uid, even if its name looks like a number. Otherwise `-u` fails with `NotNumeric` iff the argument is not all digits, and a numeric uid is below 2^32. |
| Cycles.ConfigureFrom | cycles.c:159-180 | Reading the rest of the options keeps the group list read so far or installs one of at most 10 ids. |
| Cycles.Configure | cycles.c:159-180 | Accepted options never ask for more than 10 supplementary groups. |
| Cycles.Expected | cycles.c:159-199 | An option error means no event and that error. A run that executes the command had valid options and a command; its trace has at least five events, starts with the counter and `fork`, and ends with `execve(command[0], command)`. |
| Cycles.Launch | cycles.c:182-199 | No command means no event and `NoCommand`. An executing run opens the counter, forks, and ends with `execve` of the command. |
| Cycles.Forked | cycles.c:186-199 | Every run that reaches it has opened the counter and forked. An executing run ends with `execve`; a fatal one failed in the privilege drop or in `execve` itself. |
| Cycles.Step | cycles.c:160-179 | One option fails iff it is an unknown letter, a `-u` that is neither a name nor a number, or a `-g` list that does not parse. The error does not depend on earlier options. |
| Cycles.Run | cycles.c:145-199 | `main` produces exactly the trace and outcome of `Expected`, and leaves the child's credentials with the effect of the granted calls. |
| Cycles.ReadOption | cycles.c:160-179 | One turn of the `getopt` loop does what `Step` says. `-u` replaces the uid, and `-g` parses into the array and replaces the count. An error stops the loop with `Step`'s error. |
| Cycles.Start | cycles.c:182-199 | After the options: no command is fatal before anything else. A failed counter open or a failed `fork` ends the run there. Otherwise the child runs as `Child` says. |
| Cycles.Child | cycles.c:191-199 | The child logs one credential event per call made by `setuidgid`. A failed drop is fatal right after the refused call. Otherwise the counter is reset and enabled, and `execve` runs `command[0]` with the whole command as its arguments. |
| CyclesLaws.NumericUser | cycles.c:167-170 | Every uid below 2^32 is reached by its decimal numeral. |
| CyclesLaws.NumericUserWraps | cycles.c:170 | A numeral between 2^32 and `ULONG_MAX` gives its value modulo 2^32. |
| CyclesLaws.WrapsToRoot | cycles.c:170 | `-u 4294967296` gives uid 0. |
| CyclesLaws.NumericUserSaturates | cycles.c:167-170 | A numeral beyond `ULONG_MAX` gives uid 2^32 - 1. |
| CyclesLaws.ConfigureAppend | cycles.c:159-180 | Options are read in order: reading `a + b` is reading `b` after `a`, and stops at the first error. |
| CyclesLaws.ConfigureMeaning | cycles.c:159-180 | The options are accepted iff each one is valid on its own. Otherwise the error is that of the first invalid one. |
| CyclesLaws.LastOneWins | cycles.c:161-176 | Accepted options ask for the uid of the last `-u` (root if there is none) and the list of the last `-g` (empty if there is none), independently of each other. |
| CyclesLaws.FailuresComeFirst | cycles.c:159-185 | With an option error or no command: nothing happens, no credential changes, and the run ends with that error. Every other run opens the counter first. |
| CyclesLaws.ChildOrder | cycles.c:187-198 | A child that executes the command first made every planned credential call, all granted. The trace is: counter, fork, the plan's calls, reset, enable, `execve(command[0], command)`. |
| CyclesLaws.FailClosedRun | cycles.c:191-199 | A refused credential call is the last event of the run, and the run ends with that error: no reset, no enable, no `execve`. |
| CyclesLaws.GroupsBeforeUser | cycles.c:191 | In the trace, no credential call follows `setresuid`. |
| CyclesLaws.ExecutedAs | cycles.c:191-198 | The command runs with the requested identity: the uid of `-u` unless it is root, and the `-g` list with its first entry as gid, or else the user's primary group and no supplementary groups. Root without `-g` keeps everything, and a uid or gid of `(uid_t)-1` keeps the caller's. |
| CyclesLaws.UnchangedUserKeepsCaller | cycles.c:167-170 | `-u 4294967295`, or any numeral beyond `ULONG_MAX`, asks for uid `(uid_t)-1`, and a command that runs then runs with the caller's uid. |

## Left out

- The performance counter (cycles.c:31-69, 194-195): `perf_event_open` is an oracle, and the reset and enable `ioctl`s are events. The counter's attributes and the final `read` are not modelled.
- The parent after `fork` (cycles.c:202-206): `wait`, printing the count, and the exit status via `WEXITSTATUS`. The model follows the child; `fork` itself is an oracle that succeeds or fails.
- `getopt` mechanics: argument permutation, `--`, and clustered options. The model takes the options as a list and the command as the arguments that follow. An option missing its argument is treated like an unknown letter, as `getopt` returns `'?'` for it.
- The messages of `err` and `errx`: a fatal error is one `Error` value.
- `strtoul` leniency at cycles.c:167: leading white space and a `+` or `-` sign are not accepted by the model. Plain digit strings, including the empty string (which `strtoul` reads as 0 with nothing left over), are handled as `strtoul` does, with saturation.
- GroupListParser.ArrayOfUint: the `int v` accumulator is an unbounded integer. Signed overflow at cycles.c:84-85 is undefined behaviour and is not modelled, and no bound is placed on the numbers. Group ids are unbounded naturals, not 32-bit `gid_t`.
- `isdigit`, `isalpha`, `isalnum` and `isspace` are the C-locale ASCII classes. A negative `char` is not modelled.
- The out-of-bounds store itself: `ResolveAsWritten` records the slots written as a sequence, not the memory beyond `gids[9]` that the store overwrites.
- The real `getpwnam`, `getgrnam` and `getpwuid`, and the `setgroups`, `setresgid` and `setresuid` system calls: these are lookups and an oracle. `setgroups(0, NULL)` is `SetGroups([])`.
- The uninitialised `gids` array of `main`: the model's array starts at zeros. Only slots below `gidcount`, which the parser wrote, are ever read.
- The environment passed to `execve` (always `NULL`) is not represented in the `Exec` event.
- GroupListLaws.IllegalCharFails: requires that the capacity is not used up before the illegal character, because the parse stops at the capacity and never sees what follows (cycles.c:89-90).
- GroupListLaws.LongNameRejected: requires a slot to be left after the name (`|es| + 2 <= maxidx`), and the elements before it to be known. With the corrected capacity check, a long name that fills the last slot after known elements is accepted as its 31-character prefix (`GroupListLaws.LongNameInLastSlot`). The source as written rejects it (`GroupListLaws.AsWrittenRejectsLongName`).
- Cycles.Run: models `main` with the corrected `arrayofuint` of Findings, so it accepts `-g` arguments the source rejects. Examples are `-g a,a,a,a,a,a,a,a,a,a,;` with `a` a known group, where the source goes on past the tenth name and fails at `;` (cycles.c:107-108), and ten known names followed by an unknown one, where the source fails in `getgrnam` (cycles.c:101-102). The model stops at the tenth name and runs the command.
- Cycles.Run: requires every `-u` and `-g` argument to be a C string with no NUL inside, as `argv` strings are.

## Findings

| source | as written | input that shows it | evidently intended | confidence | as-written member | corrected member |
|---|---|---|---|---|---|---|
| cycles.c:103 | The name branch stores `arr[idx++] = g->gr_gid` without the `idx >= maxidx` test the numeric branch makes at cycles.c:89-90, so known names keep being stored past the capacity. | `-g staff,staff,staff,staff,staff,staff,staff,staff,staff,staff,staff` (11 known names) stores an 11th gid into `gids[10]` of the 10-element array in `main`. | The same capacity check after a name's store as after a number's: at most `maxidx` ids are stored, and parsing stops there. | not executed | GroupListLaws.AsWrittenOverflow | GroupListParser.ArrayOfUint |

With the correction, a name stored into the last slot ends the parse just as a number
does. A long name whose first 31 characters name a known group is then accepted there,
after any list of known elements
(`GroupListLaws.LongNameInLastSlot`), where the source as written rejects it
(`GroupListLaws.AsWrittenRejectsLongName`).
