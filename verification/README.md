# Verified model of the radio HAL

This project models the parts of the radio hardware abstraction layer that carry protocols and
state: the AT command channel of the modem with its tokenizer, the modem's connect-and-retry run,
the Wi-Fi event machine and interface table, and the request loop to wpa_supplicant. Each part has
a model in the form of its code (classes whose methods update buffers, lists and tables in place,
loops with invariants) and a specification in functions, and the theorems are about the
specification: over every stream, every split of it into reads, every run and every interleaving
of the two threads.

`dafny verify dfyconfig.toml` checks everything.

## How it fits together

* `CString`, `LineFraming`, `LineInput`, `LineReader`, `SmsPrompt`: C strings and the reader's fixed
  buffer. `LineFraming` says what the lines of a byte stream are; `LineInput` is `readline` on the
  contents of the buffer; `LineReader` is `readline` on the buffer itself, proved equal to it.
* `AtProtocol`, `ResponseLaws`, `AtExchange`: the command channel as a transition system. The command
  mutex is given up only inside the wait, so a run is a sequence of whole critical sections of one
  command thread and one reader thread. Waking is a step of its own: lines may come between the signal
  and the wake-up. `ResponseLaws` says what a command returns with by the text of the lines alone.
* `AtChannel`, `CommandChannel`, `ReaderThread`, `AtCommands`, `Deadline`: the port, the response list,
  the send function, the reader loop and the functions clients call, each proved to take the steps
  of the transition system.
* `Tokens`, `Numerals`, `TokenCursor`: the tokenizer as a function of text, the C number conversions,
  and the tokenizer as it overwrites the line.
* `SimStatus`, `SimModem`, `SimGuard`, `ConnectOutcome`, `ModemHal`, `SysCommand`: what the modem HAL reads about
  the SIM, a modem whose SIM counts its PIN tries, the connect run against it and how it ends, the
  HAL's methods and event loop, and the collection of a command's output.
* `InterfaceTable`, `WifiMachine`: the table of interfaces and the event machine of the radios.
* `RelTime`, `WpaRequest`: relative times and the request to wpa_supplicant.

Threads, descriptors, sockets, clocks and the programs at the other end are parameters: scripts of
what reads, writes and waits bring (`ReadEvent`, `WriteEvent`, `Step`, `Arrival`, `Wait`, `Fate`) or
functions of time. Theorems quantify over all of them.

## Where the code differs from its comments

* A second writer is not kept out: `s_writeMutex` is declared and never taken (src/modem/at/atchannel.c:78),
  and the command mutex is free while a command waits. A second command then frees the first one's
  response, and the first looks through a null pointer when it wakes: `AtProtocol.SecondWriter`.
  `AtProtocol.EveryReturnIsGood` says that every return of a run is good if and only if no command is
  issued while another waits, and `AtProtocol.NullReachedExactly` that the null pointer is met otherwise.
* For the "> " prompt `findNextEOL` returns the terminating NUL itself, so the cursor passes it
  (src/modem/at/atchannel.c:307-310, 412), against the comment there. The byte behind it decides
  whether the buffer counts as empty, and it is left over from earlier lines. `SmsPrompt.PromptReturned`
  names that byte for every buffer and every way the prompt arrives. Behind an ordinary line with
  its CR and LF the buffer is left empty only if the line has one character or three
  (`PromptAfterLine`). Behind a line of two characters the line's LF is left (`LineFeedAgain`); behind
  a longer one its characters from the fourth on are, which go before the next line returned
  (`StalePrompt`) or, if they look like a prompt, are returned as one (`PromptTwice`).
* A prompt that ends on the last byte of the buffer takes the cursor out of it, and nothing else does
  (`LineInput.OnlyPromptLeaves`, `SmsPrompt.PromptLeaves`); newlines and a prompt that just fill an empty
  buffer are such a stream (`ReaderThread.FullPromptOutside`). The comment at
  src/modem/at/atchannel.c:412-413 says the opposite.
* The first memset for an empty buffer (src/modem/at/atchannel.c:344) writes as many bytes as the buffer
  has, from the cursor on. It stays inside if and only if the cursor is at the front
  (`LineReader.FirstClearInside`), and the cursor seldom is; the second memset is the intended one.
* The framing theorems therefore exclude prompts at the start of a line. They also exclude them inside
  a line that does not fit the buffer (`PromptFree`), because a full buffer is ditched and a prompt
  that comes next is taken for a line (`LongLinePrompt`). A "> " in any other place is no matter.
* A reader that ends wakes the command thread only when a callback is registered
  (src/modem/at/atchannel.c:422), and the repository registers none: `AtProtocol.DeadReader`. Without one
  it may wait for ever: `AtProtocol.DeadReaderWaits`.
* After the final line is stored and before the command thread wakes, the reader may store another:
  the delivered response has the last final line (`LastFinal`).
* A failed `AT+CPIN?` with error number 0 counts as success, and the first line of a response without
  lines is read: `SimStatus.FaultIsErrorZero` says exactly when; the model's `Crashed` outcome follows. A
  refused `AT+CGREG?` does the same while the connection is brought up: `ConnectOutcome.RefusedPollExample` is
  such a run, and `ConnectOutcome.ConnectEnds` says exactly when a connect ends so.
* `pin1_remaining_times` keeps whatever it held when no "SC" row comes
  (src/modem/modem_hal_main.cpp:459-484): `SimStatus.RetriesDefined` says exactly when it matters, and
  `SimGuard.LastTrySpent` exactly when a wrong PIN then spends the last try.
* A stored interface name that extends a new one hides it (src/wifi/wifi_hal_main.cpp:197-200):
  `InterfaceTable.NameEnters` and `SecondLost`.
* "AP-ENABLED " is an event that no rule uses, so an access point never counts as up, and without a
  mesh group the Wi-Fi loop never returns: `WifiMachine.NoMeshNoReturn`, and exactly when it does
  return `WifiMachine.ReturnsExactly`.
* The error number is read from the final line in place, so a line that goes on behind a comma is cut
  there: `TokenCursor.CmeErrorAgain` shows that reading it again gives the same number.

## Model

| member | source | states |
|---|---|---|
| CString.StrStartsWith | src/modem/at/misc.c:23-32 | the prefix test is exactly the prefix relation, for every pair of strings |
| LineFraming.DeliveredExactly | src/modem/at/atchannel.c:305-417 | when every line is short, the delivery relation leaves one outcome only: all lines, whole and in order |
| LineFraming.LinesMean | src/modem/at/atchannel.c:305-417 | the lines of a stream, character by character: each CR or LF ends a line unless nothing is before it, and what none of them ends is no line |
| LineInput.ReadLineReads | src/modem/at/atchannel.c:329-417 | one call of readline, from any buffer state and any reads, consumes a line of the unread stream, or only newlines and bytes of a line too long for the buffer |
| LineInput.SessionDelivers | src/modem/at/atchannel.c:341-412 | resynchronisation: over a whole stream every line that fits is returned intact and in order; of a longer one nothing or a suffix is returned; prompts are excluded only at the start of a line and inside a line that is too long |
| LineInput.SessionIsLines | src/modem/at/atchannel.c:305-417 | framing: the calls of readline return exactly the non-empty runs between newlines that a newline ends |
| LineInput.ChunkingIrrelevant | src/modem/at/atchannel.c:305-417 | two ways of splitting the same bytes into reads, with interruptions, give the same lines |
| LineInput.ReadLineText | src/modem/at/atchannel.c:405-416 | the line returned is a C string: it ends at the first NUL |
| LineReader.LineReader.ReadNext | src/modem/at/atchannel.c:345-417 | the loop over the fixed buffer, with compaction and overflow, computes the readline of the model and, the memset of line 344 apart, stays inside the buffer |
| LineReader.FirstClearInside | src/modem/at/atchannel.c:344 | that memset stays inside the buffer if and only if the cursor is at the front |
| LineInput.OnlyPromptLeaves | src/modem/at/atchannel.c:408-416 | whatever the buffer and the reads, only a prompt that ends on the last byte of the buffer takes the cursor out of it |
| LineReader.LineReader.FindEol | src/modem/at/atchannel.c:305-325 | the end of a line is the prompt's NUL, the first newline, or none |
| LineReader.LineReader.MoveUp | src/modem/at/atchannel.c:361-366 | compaction moves the unread string and its NUL to the front of the buffer and leaves the rest |
| SmsPrompt.PromptReturned | src/modem/at/atchannel.c:305-412 | from any buffer of newlines and part of a prompt, however the rest arrives, the prompt is returned, and the buffer is left empty if and only if it was empty or the one byte behind the prompt is NUL |
| SmsPrompt.PromptLeaves | src/modem/at/atchannel.c:408-416 | a prompt takes the cursor out of the buffer if and only if the byte behind it lies outside |
| SmsPrompt.FullPromptLeaves | src/modem/at/atchannel.c:305-416 | newlines and a prompt that just fill an empty buffer do so, in however many reads |
| SmsPrompt.PromptAfterLine | src/modem/at/atchannel.c:355-412 | behind any line that came alone with its CR and LF, a prompt leaves the buffer empty if and only if the line has one character or three |
| SmsPrompt.StalePrompt | src/modem/at/atchannel.c:305-412 | after a prompt behind a line of more than three characters, the next line returned starts with a piece of the old one |
| SmsPrompt.PromptTwice | src/modem/at/atchannel.c:305-412 | a piece that looks like a prompt is returned as a second prompt |
| SmsPrompt.LineFeedAgain | src/modem/at/atchannel.c:355-412 | behind a line of two characters only that line's LF is left |
| SmsPrompt.LongLinePrompt | src/modem/at/atchannel.c:373-379 | a prompt inside a line that fills the buffer is returned as a line, which is no way to deliver the stream |
| AtProtocol.RunKeepsInv | src/modem/at/atchannel.c:563-740 | in every run of one writer each response is pending, freed once or handed over once, and only one of these; its success flag agrees with its final line; no line it keeps is final; its PDU is sent at most once |
| AtProtocol.ReturnMeans | src/modem/at/atchannel.c:707-740 | a return leaves no response, prefix or PDU pending, and is 0 only with a final response and an open channel |
| AtProtocol.EveryReturnIsGood | src/modem/at/atchannel.c:680-740 | with and without a callback, every return of a run is as described if and only if no command is issued while another waits, and then no waiting command finds its response gone |
| AtProtocol.SecondWriter | src/modem/at/atchannel.c:687-737 | a command issued while another waits frees that one's response and leaves it to look through a null pointer |
| AtProtocol.NullReachedExactly | src/modem/at/atchannel.c:687-737 | a run leaves a waiting command without its response if and only if a command is issued while another waits |
| AtProtocol.RejectedKeepsInv | src/modem/at/atchannel.c:793-814 | a response taken back by a wrapper is freed exactly once |
| AtProtocol.DeadReader | src/modem/at/atchannel.c:420-434 | a dead reader lets the command thread go if and only if a callback is registered, the channel was closed, or the response had come |
| AtProtocol.DeadReaderWaits | src/modem/at/atchannel.c:707-718 | without a callback an untimed command without a final line keeps waiting over every later run with no line and no close |
| AtProtocol.LinesConserved | src/modem/at/atchannel.c:238-296 | over any run the lines consumed, in order, are exactly the lines fed |
| AtProtocol.IdleLine | src/modem/at/atchannel.c:242-244 | a line that comes while nothing is pending goes to the unsolicited handler and changes nothing else |
| AtProtocol.ResponseIsFilter | src/modem/at/atchannel.c:238-296 | over every interleaving the response being assembled is a filter of the lines since its command: all that match for MULTILINE, the first for NUMERIC and SINGLELINE, none for NO_RESULT |
| AtProtocol.DeliveredResponse | src/modem/at/atchannel.c:720-733 | the response handed over has those lines in arrival order, the last final line and the success flag that fits it; without a final line and with an open channel the command keeps waiting |
| ResponseLaws.CommandReturns | src/modem/at/atchannel.c:238-740 | over every interleaving, told by the text of the lines alone: the code, the last final line, whether it says OK or CONNECT, and of the lines that are neither final nor the prompt for the PDU none for NO_RESULT, the first that starts with a digit for NUMERIC, the first with the prefix for SINGLELINE, all with the prefix in order for MULTILINE |
| ResponseLaws.FirstOfFinds | src/modem/at/atchannel.c:253-277 | the first such line is the one with none before it, and there is no line exactly when none is such |
| ResponseLaws.FinalLines | src/modem/at/atchannel.c:146-185 | the final lines and the successes among them, by their beginnings |
| ResponseLaws.CommandFails | src/modem/at/atchannel.c:687-737 | on a closed channel a command returns -3 and unwritten -1, with nothing else changed; after its time -4, whatever came meanwhile, with its response freed and none handed over |
| AtProtocol.ResponseIsLogged | src/modem/at/atchannel.c:238-296 | the lines recorded as kept since a command was issued are those stored for it, in order, and the last recorded as final is its final line |
| AtExchange.ExchangeReturns | src/modem/at/atchannel.c:680-740 | a command whose answer is a final line behind lines it collects returns 0 with exactly those lines, whatever lines of no concern to it come before them |
| AtChannel.Port.Transmit | src/modem/at/atchannel.c:484-561 | 0 if and only if the port's answers take it all, an error otherwise; what the port then has is told by the answers alone: the string and the terminator, or as much of the string as was taken before the failure |
| AtChannel.SendFailsOnly | src/modem/at/atchannel.c:497-520 | sending fails only when an answer is a failure or there is none left: short and interrupted writes, however many, never make it fail |
| AtChannel.SendSucceeds | src/modem/at/atchannel.c:497-520 | a port that never fails and takes something often enough takes everything |
| AtChannel.ATResponse.AddIntermediate | src/modem/at/atchannel.c:125-138 | the new line heads the list of those stored |
| AtChannel.ATResponse.ReverseIntermediates | src/modem/at/atchannel.c:658-671 | the list is reversed in place, node by node |
| AtChannel.ReverseNodeTexts | src/modem/at/atchannel.c:658-671 | the lines of reversed nodes are the reversed lines |
| CommandChannel.CommandChannel.ProcessLine | src/modem/at/atchannel.c:238-296 | the handling of a line in place is the step of the transition system; only a prompt writes to the port, and then the whole pending PDU as far as the port takes it |
| CommandChannel.CommandChannel.ClearPending | src/modem/at/atchannel.c:563-572 | the pending response is freed and nothing stays registered |
| CommandChannel.CommandChannel.SendCommand | src/modem/at/atchannel.c:680-740 | the send function takes the steps of the transition system whatever comes during its waits; on an open channel with nothing pending the command counts as written if and only if the port's answers take it all, and the port gets exactly that, and then at most one attempt to send the PDU |
| ReaderThread.ReaderLoop | src/modem/at/atchannel.c:437-475 | for every stream, prompts included, the reader loop hands the channel exactly the steps that the lines read stand for, and then ends, unless the cursor has left the buffer; that it has is reported exactly when it does |
| ReaderThread.PromptFreeInside | src/modem/at/atchannel.c:408-416 | a stream without prompts keeps the cursor in the buffer |
| ReaderThread.FullPromptOutside | src/modem/at/atchannel.c:408-416 | a stream of newlines and a prompt that just fill the buffer does not |
| ReaderThread.StepsFeedLines | src/modem/at/atchannel.c:448-470 | every line reaches the channel once and in order, but an SMS header at the very end |
| ReaderThread.StepsPair | src/modem/at/atchannel.c:204-470 | lines are handed over one by one; one that begins with +CMT:, +CDS: or +CBM: goes with the line behind it, whatever that says, and is dropped when there is none |
| ReaderThread.ReaderSeesStream | src/modem/at/atchannel.c:437-475 | for a stream without prompts whose lines fit, what the channel is given depends on the bytes alone, and loses no line but that header |
| ReaderThread.StreamConserved | src/modem/at/atchannel.c:238-475 | for any stream, prompts included, and any interleaving of the reader with commands, wake-ups, timeouts and closing, the lines read are consumed exactly once and in order, but an SMS header at the very end |
| ReaderThread.StreamLinesConserved | src/modem/at/atchannel.c:238-475 | and for a stream without prompts whose lines fit they are the lines of its bytes, however they arrive |
| AtCommands.SendForLine | src/modem/at/atchannel.c:793-860 | a success always has a line; a success without one is taken back, freed and reported as an invalid response; the port gets the command |
| AtCommands.Handshake | src/modem/at/atchannel.c:899-930 | at most eight attempts, each the handshake command, ending at the first success, with nothing left pending; all else that happens is the script, in order; the port gets one ATE0Q0V1 for each attempt on an open channel with nothing pending |
| Deadline.SetTimespecRelative | src/modem/at/atchannel.c:94-107 | the deadline is exactly the given time away, and normalised if and only if the remainder does not pull the microseconds below zero, so always for times that are not negative |
| Tokens.LineRoundTrip | src/modem/at/at_tok.c:28-87 | a printed line of bare or quoted fields yields exactly those fields in order, and then has no more |
| Tokens.StartMeans | src/modem/at/at_tok.c:28-46 | a line starts behind its first colon, and fails to start exactly without one |
| Tokens.MoreToTake | src/modem/at/at_tok.c:173-188 | after any of the fields of a printed line the cursor is at the rest of it, and there are more tokens exactly if that is not empty |
| Tokens.QuotedThen | src/modem/at/at_tok.c:57-87 | whatever comes between a closing quote and the next comma is skipped |
| Tokens.OpenQuote | src/modem/at/at_tok.c:78-81 | a quote that is never closed takes all that is left, commas included |
| Tokens.TokensBounded | src/modem/at/at_tok.c:70-87 | every token uses up some of the line, so one of length n has at most n + 1 |
| TokenCursor.Tokenizer.Start | src/modem/at/at_tok.c:28-46 | the cursor moves behind the first colon, or becomes NULL and an error is returned |
| TokenCursor.Tokenizer.NextToken | src/modem/at/at_tok.c:70-87 | the next token in place is that of the function on text; only consumed delimiters become NULs and the tokens before still read the same |
| TokenCursor.Tokenizer.NextStr | src/modem/at/at_tok.c:173-182 | an error if and only if nothing is left, the next token otherwise |
| TokenCursor.Tokenizer.NextStrs | src/modem/at/at_tok.c:48-87 | any number of token calls hands out the tokens of the text, keeps every earlier one and changes only consumed delimiters |
| TokenCursor.Tokenizer.NextInt | src/modem/at/at_tok.c:97-148 | the number the next token stands for after clamping and truncation, or an error exactly when it has no digits |
| TokenCursor.Tokenizer.HasMoreTokens | src/modem/at/at_tok.c:185-188 | true exactly when unread text is left |
| TokenCursor.GetCmeError | src/modem/at/atchannel.c:936-966 | the error number, read in the response's own final line, is that of the function on text, and the line loses only the delimiter behind the number |
| TokenCursor.CmeErrorAgain | src/modem/at/atchannel.c:936-966 | reading the number again from the line as it was left gives the same number |
| Tokens.TokCut | src/modem/at/at_tok.c:70-87 | a line cut at the end of its first token has the same first token |
| Numerals.DecimalRoundTrip | src/modem/at/at_tok.c:97-137 | a decimal text is read back as its number if and only if that is a 32-bit int |
| Numerals.DecimalBeyond | src/modem/at/at_tok.c:97-137 | any other whole number gives its low 32 bits, after it is clamped to 64 |
| Numerals.DecimalThen | src/modem/at/at_tok.c:97-137 | blanks and a sign before a number and anything but a digit behind it leave the number as it is |
| Numerals.NoNumber | src/modem/at/at_tok.c:97-126 | text that begins with neither a digit nor a sign before one is no number |
| Numerals.HexRoundTrip | src/modem/at/at_tok.c:97-148 | the hexadecimal text of a 32-bit pattern is read back as its two's-complement value |
| Numerals.HexBeyond | src/modem/at/at_tok.c:97-148 | a longer pattern gives its low 32 bits, or -1 beyond 64 |
| Numerals.MarkedHexRoundTrip | src/modem/at/at_tok.c:97-148 | a hexadecimal text with its 0x mark stands for the same number |
| Numerals.CmeErrorRoundTrip | src/modem/at/atchannel.c:936-966 | a failed response with error number n yields n, for every 32-bit n |
| Numerals.CmeErrorElse | src/modem/at/atchannel.c:936-966 | 0 for a success, whatever its final line; -1 for a failure with no final line, one of another kind or one without a number |
| SimStatus.StatusOfPrinted | src/modem/modem_hal_main.cpp:383-443 | a printed PIN status is read back as that status, in or out of quotes and behind any blanks |
| SimStatus.StatusOfFailure | src/modem/modem_hal_main.cpp:397-410 | a failed query means no SIM for error number 10, a fault for 0 without lines, and a SIM that is not ready for every other number |
| SimStatus.StatusUnread | src/modem/modem_hal_main.cpp:383-422 | an error code, a failure that tells no error number, or a line without a colon means a SIM that is not ready |
| SimStatus.FaultIsErrorZero | src/modem/modem_hal_main.cpp:397-413 | a response without lines is looked at exactly when the query failed with a final line that gives the number 0 behind its prefix |
| SimStatus.RetriesOfPrinted | src/modem/modem_hal_main.cpp:459-484 | printed rows are read back as the last count given for the SIM PIN |
| SimStatus.RowReads | src/modem/modem_hal_main.cpp:459-484 | a printed row of any fields is in error unless its facility begins with SC or P2 and numbers follow; only an SC row gives its count |
| SimStatus.RowMissing | src/modem/modem_hal_main.cpp:459-484 | so is a row with fewer fields or without a colon |
| SimStatus.RetriesFail | src/modem/modem_hal_main.cpp:459-484 | the count is an error if and only if some row cannot be read |
| SimStatus.RetriesDefined | src/modem/modem_hal_main.cpp:449-484 | the count is independent of the unset variable if and only if the rows are in error or one is for the SIM PIN |
| SimGuard.ConnectSparesLastTry | src/modem/modem_hal_main.cpp:660-762 | whatever becomes of its commands, a connect that is told the truth about the tries presents at most one PIN, to a SIM with more than one try, and never to one with a single try left |
| SimGuard.RetriesSpareLastTry | src/modem/modem_hal_main.cpp:871-937 | however often the HAL retries, a SIM that tells the truth and had a try keeps one and never asks for its PUK |
| SimGuard.RetriesEnd | src/modem/modem_hal_main.cpp:886-937 | the HAL connects again as long as connects fail, and never after one that does not |
| SimGuard.LastTrySpent | src/modem/modem_hal_main.cpp:459-484 | when rows tell another count, or none for the SIM PIN, a wrong PIN spends the last try if and only if that count, or what the variable happened to hold, is more than one |
| SimGuard.BringUpSpares | src/modem/modem_hal_main.cpp:706-762 | none of the commands that bring the connection up gives a PIN |
| SimGuard.PollSpares | src/modem/modem_hal_main.cpp:566-658 | the registration is asked for at most eleven times |
| ConnectOutcome.PollOutcome | src/modem/modem_hal_main.cpp:566-658 | from any of its eleven queries on, the poll looks at a response without lines if and only if one of them is refused while all before tell that the modem searches; it succeeds if and only if one of the first ten tells a status neither searching nor negative |
| ConnectOutcome.RegistrationOfPrinted | src/modem/modem_hal_main.cpp:584-615 | of a printed line with the mode of the reports and the status, the status is read |
| ConnectOutcome.RegistrationReads | src/modem/modem_hal_main.cpp:584-615 | of a printed line of any fields the second one is read, as far as both are numbers |
| ConnectOutcome.RegistrationMissing | src/modem/modem_hal_main.cpp:584-615 | a line with a single field tells nothing |
| ConnectOutcome.PrintedPoll | src/modem/modem_hal_main.cpp:566-658 | the poll on lines as printed: while they tell 0, 2 or 4 the HAL asks again, eleven times at most; a refusal then crashes it, no answer or a line with a single field fails it, and another status ends it, with success if it is not negative and among the first ten |
| ConnectOutcome.PrintedConnect | src/modem/modem_hal_main.cpp:660-762 | the whole connect of a SIM that is ready, on registration lines as printed |
| ConnectOutcome.SetUpFates | src/modem/modem_hal_main.cpp:706-740 | fourteen commands come before the poll, and one more if and only if the third is not answered |
| SimGuard.SetUpSends | src/modem/modem_hal_main.cpp:706-740 | the commands before the poll, by their text and in order |
| ConnectOutcome.ConnectEnds | src/modem/modem_hal_main.cpp:660-762 | exactly when a connect crashes and exactly when it succeeds |
| ConnectOutcome.ReadyConnectEnds | src/modem/modem_hal_main.cpp:660-762 | with a SIM that is ready both are told by what becomes of the commands alone |
| ConnectOutcome.RefusedPollCrashes | src/modem/modem_hal_main.cpp:578-582 | a refused first poll makes such a connect crash |
| ConnectOutcome.RefusedPollExample | src/modem/modem_hal_main.cpp:578-582 | a run of a modem that answers all but its registration |
| SimGuard.WrongPinStops | src/modem/modem_hal_main.cpp:871-937 | a wrong PIN with all commands answered costs exactly one try per connect until one is left, and then none |
| SimGuard.RightPinOpens | src/modem/modem_hal_main.cpp:512-762 | the right PIN opens the SIM and restores its tries exactly when more than one try was left, and the outcome is then that of bringing the connection up |
| SimGuard.ResultOfPrinted | src/modem/modem_hal_main.cpp:539-559 | the result of entering the PIN is 0, -2 or -3 exactly for the statuses READY, SIM PIN2 and SIM PUK2 printed afterwards |
| SimGuard.PinNotRead | src/modem/modem_hal_main.cpp:526-548 | and -1 when a command is refused or no status can be read |
| SimModem.PinFits | src/modem/modem_hal_main.cpp:521-524 | the command is the PIN in quotes if and only if the PIN has at most nine characters; of a longer one it has ten and no closing quote |
| SimModem.ResponseTravels | src/modem/modem_hal_main.cpp:390-449 | the response the SIM model gives is what the command channel hands over when its lines arrive, also behind unsolicited lines |
| ModemHal.ModemHal.CheckPinStatus | src/modem/modem_hal_main.cpp:383-443 | the status query, tokenizing in place, gives the status of the model |
| ModemHal.ModemHal.GetNumRetries | src/modem/modem_hal_main.cpp:445-509 | the loop over the rows gives the count of the model, or -1 |
| ModemHal.ModemHal.EnterSimPin | src/modem/modem_hal_main.cpp:512-564 | entering the PIN sends the commands and gives the result of the model |
| ModemHal.ModemHal.GetRegistrationStatus | src/modem/modem_hal_main.cpp:566-658 | the polling loop is that of the model |
| ModemHal.ModemHal.BringUp | src/modem/modem_hal_main.cpp:706-762 | the set-up commands, with the fallback for registration events, are those of the model |
| ModemHal.ModemHal.Connect | src/modem/modem_hal_main.cpp:660-762 | the connect routine is the connect of the model |
| ModemHal.ModemHal.ModemEvents | src/modem/modem_hal_main.cpp:886-937 | all that the event loop does to the modem is one run of retries; once connected it never connects again, whatever events come |
| SysCommand.Pipe.Gets | src/modem/modem_hal_main.cpp:181 | fgets lays a terminated piece of one line into the buffer, or reports that there is none |
| SysCommand.TakesLine | src/modem/modem_hal_main.cpp:181 | that piece has no newline but at its end, and stops short of one only for want of room or of output |
| SysCommand.RunSysCmd | src/modem/modem_hal_main.cpp:162-196 | the fgets loop ends, stays inside the buffer and leaves a terminated prefix of the output that is all of it or at most two bytes shorter than the buffer |
| WifiMachine.RunKeepsInv | src/wifi/wifi_hal_main.cpp:1700-1763 | in every run each radio is started once, first and in index order, and stays among four states; a shutdown comes only from being up and by a termination; at most one radio shuts down, and the loop returns only after one has |
| WifiMachine.ChangesBounded | src/wifi/wifi_hal_main.cpp:1690-1755 | no radio ever changes its state more than three times |
| WifiMachine.RadiosIndependent | src/wifi/wifi_hal_main.cpp:1720-1759 | a radio's state is a function of its own mode and the events handled for it |
| WifiMachine.NoMeshNoReturn | src/wifi/wifi_hal_main.cpp:1551-1763 | until a message that begins with MESH-GROUP-STARTED, behind its priority, is received no radio leaves its first state, told by its mode, and the loop does not return |
| WifiMachine.EventMeans | src/wifi/wifi_hal_main.cpp:1551-1620 | each event is reported if and only if the text begins with one of its names; the order of the tests does not matter |
| WifiMachine.StripsPriority | src/wifi/wifi_hal_main.cpp:1530-1540 | a priority in angle brackets is stripped up to the first closing one |
| WifiMachine.StripsNoOther | src/wifi/wifi_hal_main.cpp:1530-1540 | a text that does not start so, or never closes the bracket, stays as it is |
| WifiMachine.WaitMeans | src/wifi/wifi_hal_main.cpp:1499-1620 | which event a wait ends with, told from what was received: a message that begins with the name of the event behind its priority, and for a termination also a missing socket, a failed read or an empty message |
| WifiMachine.BeginsBehindPriority | src/wifi/wifi_hal_main.cpp:1530-1540 | behind a priority without a closing bracket of its own, the text decides |
| WifiMachine.ShutdownEnds | src/wifi/wifi_hal_main.cpp:1735-1742 | after a shutdown no state changes, and the loop returns exactly at the next report that is an event |
| WifiMachine.ReturnsExactly | src/wifi/wifi_hal_main.cpp:1700-1763 | the loop returns if and only if some radio whose mode begins with ap, sta or mesh hears of its mesh group, later of its termination, and after that any event is reported, all told from what was received |
| WifiMachine.Handle | src/wifi/wifi_hal_main.cpp:1690-1758 | the search through the rules and the handler found give the reaction of the model |
| WifiMachine.WifiHal.WifiEvents | src/wifi/wifi_hal_main.cpp:1700-1763 | the loop over states and events in place is the run of the model, the startup included |
| InterfaceTable.HandleMeans | src/wifi/wifi_hal_main.cpp:194-214 | a complete message fills the first free slot exactly if no stored name extends its name, and otherwise changes nothing |
| InterfaceTable.FirstStored | src/wifi/wifi_hal_main.cpp:203-214 | the first message of a dump, field by field, with seven characters of the device number |
| InterfaceTable.NoDevice | src/wifi/wifi_hal_main.cpp:194-214 | a message without a physical device enters its name and index alone and is not counted |
| InterfaceTable.DumpKeepsForm | src/wifi/wifi_hal_main.cpp:181-217 | over any dump the filled slots are a prefix of the table counted by radio_amount, with distinct names |
| InterfaceTable.ReplayStays | src/wifi/wifi_hal_main.cpp:181-217 | replaying any dump leaves the table as it is |
| InterfaceTable.AttachedDump | src/wifi/wifi_hal_main.cpp:181-217 | the same from the state at attach: any dump leaves a well-formed table, and dumping it again changes nothing |
| InterfaceTable.NameEnters | src/wifi/wifi_hal_main.cpp:197-206 | a name is in the table after its message exactly if it was before, or no stored name extended it and a slot was free |
| InterfaceTable.SecondLost | src/wifi/wifi_hal_main.cpp:197-206 | of two interfaces the second is lost if and only if its name begins the first one's, or is it |
| InterfaceTable.ShorterNameLost | src/wifi/wifi_hal_main.cpp:197-200 | so wlan1 is lost behind wlan10, and not before it |
| InterfaceTable.LongNameTwice | src/wifi/wifi_hal_main.cpp:203-206 | a first message fills both slots with one name, the first fifteen characters, if and only if the name does not fit its buffer |
| InterfaceTable.NetlinkContext.HandleMessage | src/wifi/wifi_hal_main.cpp:181-217 | the handler's loops over the arrays compute the table of the model, for messages with and without a physical device |
| RelTime.BeforeIsEarlier | src/wifi/wpa_socket/os.h:69-74 | on normalised times the order is that of the instants |
| RelTime.Sub | src/wifi/wpa_socket/os.h:77-86 | the difference is exact for all times, and normalised if and only if the microseconds are less than a second apart |
| RelTime.Expired | src/wifi/wpa_socket/os.h:99-108 | true if and only if the age exceeds the timeout to the microsecond |
| WpaRequest.SendCommand | src/wifi/wpa_socket/wpa_ctrl.c:516-543 | the send is retried while the socket is busy and given up only after more than five seconds, and after at most eight attempts, or seven if the first clock reading has seconds |
| WpaRequest.AwaitReply | src/wifi/wpa_socket/wpa_ctrl.c:545-581 | the first arrival decides that is neither an interruption nor a datagram that starts with < or IFNAME=, as far as the buffer holds that; the datagrams before it are consumed and told to the callback in order, each cut to leave room for its NUL |
| WpaRequest.UnsolicitedIs | src/wifi/wpa_socket/wpa_ctrl.c:558-559 | what the buffer keeps of a datagram looks unsolicited exactly if the datagram starts with < or IFNAME= and the buffer has room for that |
| WpaRequest.Request | src/wifi/wpa_socket/wpa_ctrl.c:484-582 | the request gets through if and only if an attempt within the bound does, and then gives the reply or its error, as the wait for it does |
| WpaRequest.Attach | src/wifi/wpa_socket/wpa_ctrl.c:586-599 | attaching succeeds if and only if the command gets through and, behind nothing but interruptions and datagrams that start with < or IFNAME=, OK and a newline arrive |

## Left out

- LineReader.LineReader.ReadNext: the first of the two memsets (src/modem/at/atchannel.c:344) is not modelled, as it may write outside the buffer (`LineReader.FirstClearInside`); the second clears the whole buffer, as intended.
- ReaderThread.ReaderLoop: says nothing of what follows once the cursor has left the buffer, as what the code then reads is not defined.
- ReaderThread.ReaderSeesStream: is for streams without prompts, since with one the lines depend on how the bytes arrive (`SmsPrompt`).
- SmsPrompt.PromptReturned: requires that the newlines still to come and the prompt fit the buffer, as otherwise part of them is ditched.
- AtChannel.Port.Transmit: a port that never answers again counts as failed, so that every loop ends.
- CommandChannel.CommandChannel.SendCommand: the return with an error for a call from the reader thread and the mutex itself are not modelled; the unlocked write to the descriptor in `at_close` is the step `Close`. The script holds no commands of other threads, as those free the response (`AtProtocol.SecondWriter`).
- Numerals.HexRoundTrip: the conversions know the bases 10 and 16, the only ones used, and ASCII blanks and digits.
- SimGuard.ConnectSparesLastTry: requires that the modem tells the truth about its tries when asked (`Honest`); `SimGuard.LastTrySpent` says what happens otherwise.
- SimGuard.BringUpSpares: the start of the data call is one parameter, `piped`; its command goes to qmicli, not to the SIM.
- AtProtocol.EveryReturnIsGood: after two commands have met, two may wait at once, and the model follows only the later one.
- SimStatus.RetriesOfPrinted: the rows for PIN2 and the PUK counts are parsed but not returned, as only the SIM PIN is asked for.
- SysCommand.RunSysCmd: a command whose pipe cannot be opened, and output with NULs, are not part of this model.
- WifiMachine.RunKeepsInv: needs at least one radio, since without one the loop reads the state before the first; the read one slot past the last radio counts as not initial.
- WifiMachine.WifiHal.WifiEvents: setting up and joining networks, signal readings and debugfs inside the handlers are not modelled; only the states they return are. Messages are C strings.
- InterfaceTable.DumpKeepsForm: is for messages with a physical device and a name that fits, as the kernel sends them; `HandleMessage` covers messages without a device and `LongNameTwice` longer names.
- WpaRequest.SendCommand: failing clock reads are not modelled, and the clock is one that advances at least a second in each sleep.
- Memory exhaustion, deallocation as such, logging, and pauses (`sleepMsec`, `sleep`).
- `at_tok_nextbool`, signal strength, and the Wi-Fi configuration commands, which are straight-line command plumbing.
- Radio manager start-up, message dispatch and the YAML reader, which hold no protocol.
- Progress under unfair scheduling: a script that ends leaves a command waiting.
