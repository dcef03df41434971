# FIX acceptor: configuration substitution, execution report, dispatch tick

A Dafny model of the three pieces of sequential logic in the FIX acceptor's
`App.main`:

- **`${NAME}` substitution** (`placeholders.dfy`, module `ConfigResolver`).
  The acceptor reads `acceptor.cfg` as text. It runs the regex
  `\$\{([^}]+)\}` over that text with a `while (matcher.find())` loop. Each
  key is looked up in the dotenv store and then in the process environment.
  A found value is written in place of the placeholder with
  `appendReplacement`. An unresolved placeholder is kept and a warning is
  printed. `appendTail` copies the rest.
  - `ResolvePlaceholders` is the loop. It keeps the output buffer and the
    matcher's two positions: where the next append starts and where the next
    search starts.
  - `ResolveFrom` / `Resolve` is a recursive reference definition. The loop is
    proved equal to it.
  - `Expand` is an independent description, piece by piece, of a text written
    as literal pieces and placeholders. A literal piece may hold any `$` that
    cannot begin a match where it stands: at the very end, before another
    `$`, or in a `${` that is never closed. The reference is proved to agree
    with it. Every text can be cut into such pieces (`Split`), so the
    agreement covers every configuration text.
- **Execution-report construction** (`execution_report.dfy`, module
  `ExecutionReports`). The report is a class with a tag-to-value map of body
  fields and an ordered sequence of Parties group instances.
  - The seven-field constructor, `set`/`setString` and `addGroup` update the
    report in place.
  - `BuildReport` performs the source's calls in order. It is proved to yield
    the template `ReportFields(transactTime)` / `ReportParties()`.
- **Dispatch tick** (`dispatch.dfy`, module `Dispatch`). One run of the
  scheduled task. With an empty session list nothing is sent. A list that
  was non-empty when tested but is empty when `get(0)` reads it again also
  sends nothing: the outer handler catches the failure. Otherwise exactly
  one report goes to the first session. A send failure that is an
  `Exception` ends in a log line; a `java.lang.Error` escapes both handlers,
  so the tick prints nothing and does not complete.

`wrappers.dfy` holds the `Option` type that stands for Java's nullable
results.

## Model

| member | source | states |
|---|---|---|
| ConfigResolver.MatchEndAt | fix.acceptor/src/main/java/mfec/fixprotocol/acceptor/app/App.java:43 | a match starting at `i` closes strictly after `i + 2`, so the key is non-empty |
| ConfigResolver.MatchEndAtIs | fix.acceptor/src/main/java/mfec/fixprotocol/acceptor/app/App.java:43 | the brace-scanning `MatchEndAt` reports `j` exactly when `s[i..j+1]` is `${`, one or more non-`}` characters and `}` (the pattern `\$\{([^}]+)\}`, stated directly as `MatchAt`), and reports none when no match starts at `i` |
| ConfigResolver.FirstCloseIsFirst | fix.acceptor/src/main/java/mfec/fixprotocol/acceptor/app/App.java:43 | the greedy `[^}]+` stops at the first `}`: no `}` lies between the start and the reported brace, and none at all when none is reported |
| ConfigResolver.FirstCloseIs | fix.acceptor/src/main/java/mfec/fixprotocol/acceptor/app/App.java:43 | a `}` with no `}` before it is the one the group stops at |
| ConfigResolver.MatchKey | fix.acceptor/src/main/java/mfec/fixprotocol/acceptor/app/App.java:43-48 | the captured `group(1)` of every occurrence `find()` reports is non-empty and free of `}` |
| ConfigResolver.FindFrom | fix.acceptor/src/main/java/mfec/fixprotocol/acceptor/app/App.java:47 | a reported match lies at or after the search position and inside the text |
| ConfigResolver.FindIsLeftmostMatch | fix.acceptor/src/main/java/mfec/fixprotocol/acceptor/app/App.java:47 | `find()` reports a real match, no match starts between the search position and it, and it reports none only when no match starts at or after the search position |
| ConfigResolver.AppendMatch | fix.acceptor/src/main/java/mfec/fixprotocol/acceptor/app/App.java:48-62 | one loop pass, by the lookup (dotenv first, then the environment): a found value `v` gives `sb + config[appendPos..i] + v` with the append position past the match and the warnings unchanged; an unresolved key leaves the text and the append position and adds the key as the last warning; either way the rest of the loop computes the same result |
| ConfigResolver.ResolvePlaceholders | fix.acceptor/src/main/java/mfec/fixprotocol/acceptor/app/App.java:43-65 | the loop's output text and warnings are exactly those of the reference definition `Resolve`, provided the values actually substituted hold no `$` or `\` |
| ConfigResolver.LoadConfiguration | fix.acceptor/src/main/java/mfec/fixprotocol/acceptor/app/App.java:31-65 | a missing `acceptor.cfg` yields no configuration and no warnings; otherwise the configuration is the resolved text and the warnings are the unbound occurrences in order |
| ConfigResolver.LoopAgreesWithResolve | fix.acceptor/src/main/java/mfec/fixprotocol/acceptor/app/App.java:45-65 | from any loop state, finishing the loop gives the buffer, the text between the append and the search positions, and the reference result from the search position |
| ConfigResolver.LoopComputesResolve | fix.acceptor/src/main/java/mfec/fixprotocol/acceptor/app/App.java:45-65 | the loop started on an empty buffer at position 0 computes `Resolve` |
| ConfigResolver.ResolveFromSkipOne | fix.acceptor/src/main/java/mfec/fixprotocol/acceptor/app/App.java:47-64 | a character where no match starts is copied to the output as it stands |
| ConfigResolver.ResolveSkip | fix.acceptor/src/main/java/mfec/fixprotocol/acceptor/app/App.java:47-64 | a stretch where no match starts is copied verbatim, and resolution continues after it |
| ConfigResolver.ResolveInertAt | fix.acceptor/src/main/java/mfec/fixprotocol/acceptor/app/App.java:43-47 | text in which no `$` can begin a match is copied verbatim, whatever surrounds it |
| ConfigResolver.FindPlaceholderAt | fix.acceptor/src/main/java/mfec/fixprotocol/acceptor/app/App.java:43-48 | `find()` at a written placeholder `${k}` reports it, with key `k` |
| ConfigResolver.ResolvePlaceholderAt | fix.acceptor/src/main/java/mfec/fixprotocol/acceptor/app/App.java:47-62 | a placeholder `${k}` becomes exactly its value when bound; otherwise it stays literally and `k` is warned about; processing continues after it |
| ConfigResolver.ResolveTextAt | fix.acceptor/src/main/java/mfec/fixprotocol/acceptor/app/App.java:47-64 | literal text inside which no match starts, given what follows it, is copied verbatim and resolution continues after it |
| ConfigResolver.ResolvePieceAt | fix.acceptor/src/main/java/mfec/fixprotocol/acceptor/app/App.java:47-64 | resolving over one literal piece or placeholder that fits what follows it prepends that piece's expansion to the rest |
| ConfigResolver.ResolveRenderedAt | fix.acceptor/src/main/java/mfec/fixprotocol/acceptor/app/App.java:43-65 | resolving from any position a text written as well-formed pieces (literal pieces in which no match starts, placeholders with a capturable key) agrees with the piece-by-piece expansion |
| ConfigResolver.ResolveRendered | fix.acceptor/src/main/java/mfec/fixprotocol/acceptor/app/App.java:43-65 | for a text written as well-formed pieces, the text before, between and after the placeholders is copied in order; each bound placeholder is replaced by its value; each unbound one stays with one warning, in order |
| ConfigResolver.SplitRendersAt | fix.acceptor/src/main/java/mfec/fixprotocol/acceptor/app/App.java:45-64 | cutting the text from any position at the occurrences `find()` reports yields well-formed pieces that spell exactly that text |
| ConfigResolver.EveryTextSplits | fix.acceptor/src/main/java/mfec/fixprotocol/acceptor/app/App.java:43-65 | every text, including `a$`, `$${A}` and an unclosed `${Y`, is the rendering of well-formed pieces, and its resolution is their piece-by-piece expansion |
| ConfigResolver.NoPlaceholderUnchanged | fix.acceptor/src/main/java/mfec/fixprotocol/acceptor/app/App.java:43-65 | a text containing no match comes out unchanged and with no warning |
| ConfigResolver.WarningsFrom | fix.acceptor/src/main/java/mfec/fixprotocol/acceptor/app/App.java:56-63 | the warnings from a position on are the unbound keys among the occurrences from there, one per occurrence and in text order |
| ConfigResolver.WarningsAreUnboundOccurrences | fix.acceptor/src/main/java/mfec/fixprotocol/acceptor/app/App.java:56-63 | exactly one warning per unresolved occurrence, in text order, duplicates included |
| ConfigResolver.UnboundKeptFrom | fix.acceptor/src/main/java/mfec/fixprotocol/acceptor/app/App.java:56-64 | when no occurrence is bound, the text from a position on is kept as it stands and every occurrence is warned about |
| ConfigResolver.UnboundKeptLiterally | fix.acceptor/src/main/java/mfec/fixprotocol/acceptor/app/App.java:56-64 | with no key bound the whole text is unchanged, and the warnings list every occurrence |
| ConfigResolver.EnvShadowedFrom | fix.acceptor/src/main/java/mfec/fixprotocol/acceptor/app/App.java:50-54 | two environments that agree on every key dotenv lacks give the same result from any position |
| ConfigResolver.EnvConsultedOnlyWithoutDotenv | fix.acceptor/src/main/java/mfec/fixprotocol/acceptor/app/App.java:50-54 | the environment is consulted only for keys dotenv lacks: changing it elsewhere changes nothing |
| ConfigResolver.PortResolves | fix.acceptor/src/main/java/mfec/fixprotocol/acceptor/app/App.java:47-64 | `port=${P}` becomes `port=` and the looked-up value, or stays with the single warning `P` |
| ConfigResolver.PortFromEnvExample | fix.acceptor/src/main/java/mfec/fixprotocol/acceptor/app/App.java:50-57 | with P only in the environment, `port=${P}` becomes `port=5001` |
| ConfigResolver.PortFromDotenvExample | fix.acceptor/src/main/java/mfec/fixprotocol/acceptor/app/App.java:50-57 | with P in both stores, the dotenv value wins: `port=6001` |
| ConfigResolver.PortUnboundExample | fix.acceptor/src/main/java/mfec/fixprotocol/acceptor/app/App.java:56-64 | with P in neither store, `port=${P}` is kept and `P` is warned about once |
| ConfigResolver.EmptyNameNotPlaceholder | fix.acceptor/src/main/java/mfec/fixprotocol/acceptor/app/App.java:43 | `${}` is not a placeholder, even when the empty name is bound; no warning |
| ConfigResolver.SinglePassExample | fix.acceptor/src/main/java/mfec/fixprotocol/acceptor/app/App.java:47-57 | substituted values are not rescanned: `$${A}` with A bound to `{B}` gives `${B}` although B is bound |
| ExecutionReports.DecimalRoundTrip | fix.acceptor/src/main/java/mfec/fixprotocol/acceptor/app/App.java:143-149 | the written group count reads back as the count |
| ExecutionReports.ExecutionReport.constructor | fix.acceptor/src/main/java/mfec/fixprotocol/acceptor/app/App.java:105-113 | a new report of MsgType 8 holds exactly the seven constructor fields and no group |
| ExecutionReports.ExecutionReport.Set | fix.acceptor/src/main/java/mfec/fixprotocol/acceptor/app/App.java:116-141 | the tag holds the new value, replacing any earlier one; nothing else changes |
| ExecutionReports.ExecutionReport.AddGroup | fix.acceptor/src/main/java/mfec/fixprotocol/acceptor/app/App.java:145-170 | the instance goes after those already added; the NoPartyIDs count follows the number of instances |
| ExecutionReports.SetScalars | fix.acceptor/src/main/java/mfec/fixprotocol/acceptor/app/App.java:116-141 | the seventeen `set`/`setString` calls turn the constructor's fields into the full scalar template |
| ExecutionReports.AddParties | fix.acceptor/src/main/java/mfec/fixprotocol/acceptor/app/App.java:143-170 | the four `addGroup` calls append the four Parties instances in order and set the count |
| ExecutionReports.BuildReport | fix.acceptor/src/main/java/mfec/fixprotocol/acceptor/app/App.java:105-170 | a fresh report with exactly the template fields, the clock's TransactTime, and the four Parties instances |
| ExecutionReports.BuildsDifferOnlyInTransactTime | fix.acceptor/src/main/java/mfec/fixprotocol/acceptor/app/App.java:105-141 | two builds have the same tags and agree on every tag but 60, which holds each build's clock value; they are equal exactly when the clock values are |
| ExecutionReports.EverySetWritesANewTag | fix.acceptor/src/main/java/mfec/fixprotocol/acceptor/app/App.java:105-141 | the template's scalar tags (`ScalarTags`, the constructor's seven and the tags of the `set`/`setString` calls, listed by hand in call order) are pairwise distinct |
| ExecutionReports.ReportTagsAreScalarTagsAndCount | fix.acceptor/src/main/java/mfec/fixprotocol/acceptor/app/App.java:105-170 | the body holds exactly the scalar tags set and the NoPartyIDs count, and no other tag |
| ExecutionReports.PartiesInOrderWithoutDeduplication | fix.acceptor/src/main/java/mfec/fixprotocol/acceptor/app/App.java:143-170 | four instances in the order added, with roles 24, 83, 4 and 12; the two with PartyID 9221332174 are both kept |
| ExecutionReports.GroupCountMatchesParties | fix.acceptor/src/main/java/mfec/fixprotocol/acceptor/app/App.java:143-170 | the NoPartyIDs field spells, and reads back as, the number of instances carried |
| Dispatch.Tick | fix.acceptor/src/main/java/mfec/fixprotocol/acceptor/app/App.java:97-188 | an empty session list gives no send and "Wait for connection"; a list emptied before `get(0)` gives no send and is caught; otherwise exactly one send, to element 0, of the built report; a send that succeeds or throws an `Exception` ends in its own log line, and a send that throws a `java.lang.Error` (caught by neither handler) gives no log line and the tick does not complete |

## Left out

- Dotenv discovery in the current directory and then in `fix.acceptor` (App.java:21-29) is file I/O. The model takes the result of `dotenv.get` as the map `dotenv`.
- Reading `acceptor.cfg` from the classpath with a `Scanner` (App.java:31-40) is I/O. Only its outcome is modelled: `LoadConfiguration` takes the text as an `Option`.
- ConfigResolver.ResolvePlaceholders: `appendReplacement` reads `$` and `\` in a value as group references and escapes. The model does not cover this. It requires only the values substituted for the text's own placeholders to contain neither character (`SubstitutedPlain`); other dotenv and environment values (a Windows `Path` with `\`, say) are unconstrained.
- ConfigResolver.LoadConfiguration: the same condition on the values substituted into the resource's text, for the same reason.
- The warning and debug lines (App.java:59, 67) are printed. The model returns the warned keys in order, not the console text.
- The QuickFIX/J engine is not part of this model:
  - `SessionSettings` parsing, the store and log factories, `ThreadedSocketAcceptor` and `acceptor.start()` (App.java:72-87);
  - `Session.sendToTarget` (App.java:173), whose outcome is the parameter `send`;
  - the FIX header and the wire encoding (BeginString, BodyLength, CheckSum).
- The NoPartyIDs count field (453) is kept by QuickFIX/J's `addGroup`. The model writes it as the decimal count of instances.
- `Price(61.25)`, `AvgPx(0)`, `LeavesQty(100)`, `CumQty(0)` and `OrderQty(100)` are floating point in the source. The model uses the decimal strings the FIX encoding writes.
- `LocalDateTime.now()` (App.java:130) and its UTCTimestamp formatting are replaced by the parameter `now` / `transactTime`, already formatted.
- The `ScheduledExecutorService` (App.java:92-97, 188) is not modelled. The model covers one tick. The period, the initial delay and the threading are left out, and so is the executor's rule that a tick ending abruptly (`Tick` returning no log line) suppresses every later tick.
- Reading stdin and `acceptor.stop()` (App.java:191-193) are process control.
- `FixServerApp.java` is not part of this model. Its callbacks only print.
- Dispatch.Tick: an exception or error thrown while the report is built is not modelled. The library's `set`/`addGroup` calls are taken to succeed. An `Error` from the send is modelled (`ErrorThrown`); one from the build, such as an `OutOfMemoryError`, is not.
