# LibCM: a verified model

LibCM keeps named variables in step between partners that are joined by FIFO links. This
project states in Dafny what the parts of it do that carry state, and proves what they keep.

* **Scripts** (`ExtFunMachine`, `ExtFunResume`, `ExtFun`, `ExtFunMeaning`). A script is a tree of commands. At
  WAIT, CALL, KILL and FUNDEF the interpreter saves a path, the run point, and returns; later
  it goes down the tree again along that path. The tree walk of the class `ExtFun` is proved
  to be a machine with an explicit stack, and any number of interrupts, with any changes of
  the variables in between, to execute what a machine executes that never gives up its stack.
  `ExtFunMeaning` says of whole runs what each command does.
* **Queries** (`DbCommon`, `DbQueryList`, `DbResponseList`, `DbLifecycle`, `DbListRuns`,
  `DbCollecting`, `DbRecords`, `DbEndToEnd`, `DbDelivery`, `DbLongAnswer`). The lists of both sides are classes; each of their
  methods is tied to a function of one query. `DbLifecycle` follows one query of ours through
  any run, `DbListRuns` every query of any run of the list, and `DbEndToEnd` one query between
  two nodes and two FIFO links, with texts cut anywhere, cancels, timeouts, and links lost at
  any moment; `DbDelivery` shows that a finished answer does arrive.
* **Ownership** (`VarChanges`, `Ownership`, `OwnershipMeaning`, `OwnershipCore`). Several partners may define one
  name; exactly one holder is visible, and the user is told of it. Operations on one name do
  not touch another, so a run is followed name by name.
* **Arrays** (`ArrayCodec`, `ArrayDelta`, `ArrayStrings`). Values of arrays as runs and as
  deltas; the decoder keeps a cursor with division and remainder. An array has one cell more
  than its size, for the default value.
* **Sending** (`Escape`, `Fragments`, `GenerateChanges`). Escaping within a limit, fragments and
  their reassembly, and queues whose entries leave whole or in fragments, each once.
* **Filters** (`FiltersSet`, `FilterSync`, `FilterText`). Three classes of filters with a cache of
  verdicts, messages that bring a partner's copy in line, and their text.
* **Arithmetic** (`Average`, `RateLimit`, `Services`). The sliding average, the limit on the speed
  of a link, and the table of services with its short numbers. Times are real numbers.

Where the code decides something by what it is given from elsewhere (room in an output buffer,
success of compression, a random number, the clock), that is a parameter, and the results hold
for all of its values.

What the code does and its comments do not say:

* When a name becomes free, the last of the colliding partners becomes its owner, not the first
  as the comment says (`lib/LibCM/cm_core.cc:4090-4092`).
* A partner whose definition collides is not disconnected, contrary to the comment
  (`lib/LibCM/cm_core.cc:4701-4702`); his variable is only hidden.
* The law written down for composed changes (`lib/LibCM/cm_var_changes.hh:13-28`) does not hold
  for the list of changed indexes; `VarChanges.ComposeExactly` says when it does.
* The mark for "no index yet" in a delta is an index (`ArrayDelta.DeltaRestoresIff`), and a run
  that begins inside an array and ends outside is cut one cell too late, so that it overwrites
  the default value (`ArrayCodec.DefaultKeptIff`).
* The counter of received bytes has 32 bits, and when it comes round to zero the next piece is
  taken for the first: it loses a byte, or an assertion ends the program
  (`DbEndToEnd.PieceKeptWhole`). Answers of more than 2^32 bytes can come to that
  (`DbLongAnswer.WrapIsReached`).
* Empty rows of indexes of a filter are lost in its text (`FilterText.TextFaithfulIff`).
* Five units of room are needed to be sure of a fragment, not two (`Fragments.EnoughRoom`).
* A filter with the empty name cannot be erased (`FiltersSet.ErasesIff`).
* The bits to wait for have 32 bits, too (`RateLimit.WindowBoundedIff`).
* The limit on the responses handed over in a round ends the turn of one query only, so a round
  can exceed it (`DbCollecting.LimitExceededIff`).
* A response given before the query is parsed closes the query: all later ones are dropped, and
  the asker waits for his timeout (`DbResponseList.RespondConsistentIff`).
* When I define a variable of mine again before the user was told of it, he is told of an update
  of a variable he does not have (`OwnershipMeaning.NextKnowsIff`).

## Model

| member | source | states |
|---|---|---|
| ExtFunResume.InterruptsAreTransparent | lib/LibCM/cm_base_ext_fun.cc:1076-1086 | re-entering the tree by the saved run point after every interrupt, with any change of registers and environment in between, ends with the same outcome, registers and next run point as a machine that keeps its stack: no command is skipped, none repeated |
| ExtFunResume.RunPointDescribesStack | lib/LibCM/cm_base_ext_fun.cc:1162-1367 | a run point left at an interrupt is a valid path to an interrupting command, and stands for exactly the frames still to be done; after DONE there is none |
| ExtFunResume.UninterruptedByLegs | lib/LibCM/cm_base_ext_fun.cc:1076-1568 | the uninterrupted machine is its first leg up to an interrupt, the pause, and the rest from the stack kept |
| ExtFunResume.RunAppend | lib/LibCM/cm_base_ext_fun.cc:1076-1568 | running two stacks on top of each other is running the upper one and then, if it is done, the lower one |
| ExtFun.RunState | lib/LibCM/cm_base_ext_fun.cc:1481-1499 | the state changes only where a command interrupts, and then to a state of waiting |
| ExtFun.LegFromMain | lib/LibCM/cm_base_ext_fun.cc:1576-1620 | a leg from the main procedure that is interrupted leaves a non-empty valid run point and a live state |
| ExtFun.ExtFun.DoProcedure | lib/LibCM/cm_base_ext_fun.cc:1076-1568 | entered with a run point or without, it returns what the stack machine started at that place returns, leaves its run point, and consumes a run point wholly before anything is evaluated |
| ExtFun.ExtFun.DoCommand | lib/LibCM/cm_base_ext_fun.cc:1094-1564 | one command, entered or resumed, moves to the next command or ends as the machine does |
| ExtFun.ExtFun.DoIf | lib/LibCM/cm_base_ext_fun.cc:1162-1209 | the branch is the one `IfMeans` says, or the one of the run point on resume |
| ExtFun.ExtFun.DoCase | lib/LibCM/cm_base_ext_fun.cc:1210-1258 | tests in order up to the first that holds, else the extra branch; on resume no test |
| ExtFun.ExtFun.DoFor | lib/LibCM/cm_base_ext_fun.cc:1259-1330 | start, condition, body, step; a resume enters the body and goes on with the step |
| ExtFun.ExtFun.DoWhile | lib/LibCM/cm_base_ext_fun.cc:1331-1367 | condition and body; a resume enters the body and goes on with the condition |
| ExtFun.ExtFun.DoWait | lib/LibCM/cm_base_ext_fun.cc:1502-1560 | WAIT saves the path and the state says what for: time, variables, both, or neither; a timeout that has no value fails and leaves the path behind |
| ExtFunMeaning.IfMeans | lib/LibCM/cm_base_ext_fun.cc:1162-1209 | an IF whose first test holds runs branch 0 and then what follows; if it does not hold, branch 1 or nothing; it fails if the test does not evaluate, or there is no test or no branch |
| ExtFunMeaning.CaseMeans | lib/LibCM/cm_base_ext_fun.cc:1210-1258 | in a CASE the first test that holds names the branch that is run, and no later test is evaluated; one that does not evaluate fails |
| ExtFunMeaning.CaseElseMeans | lib/LibCM/cm_base_ext_fun.cc:1210-1258 | when no test holds the branch behind those of the tests is run, if there is one |
| ExtFunMeaning.LoopBegins | lib/LibCM/cm_base_ext_fun.cc:1259-1367 | a WHILE begins with its test, a FOR after its first assignment |
| ExtFunMeaning.LoopGoesOn | lib/LibCM/cm_base_ext_fun.cc:1259-1367 | the body is run exactly when the test holds, and then the step of a FOR or the test again; otherwise the loop ends |
| ExtFunMeaning.ForSteps | lib/LibCM/cm_base_ext_fun.cc:1259-1330 | the step of a FOR is its second assignment, and then it is tested again |
| ExtFunMeaning.SetMeans | lib/LibCM/cm_base_ext_fun.cc:1100-1122 | an assignment records exactly its existing targets as changed, and fails exactly if all of them exist and the expression does not evaluate |
| ExtFunMeaning.DefMeans | lib/LibCM/cm_base_ext_fun.cc:1123-1142 | after DEF exactly the listed variables that may be defined exist besides those before, after UNDEF none of the listed |
| ExtFunMeaning.WaitMeans | lib/LibCM/cm_base_ext_fun.cc:1502-1560 | a WAIT whose condition does not hold is passed; otherwise the function is left, goes on by itself exactly from its deadline on, or at once if it waits for nothing, and waits for exactly the variables named |
| ExtFunMeaning.WakingMeans | lib/LibCM/cm_base_ext_fun.cc:1623-1660 | time starts no function that has ended, waits for variables only, or for its callee, and stops none that runs |
| ExtFunMeaning.CallMeans | lib/LibCM/cm_base_ext_fun.cc:1478-1500 | a threaded call goes on at once, the other waits for the callee |
| ExtFunMeaning.KillMeans | lib/LibCM/cm_base_ext_fun.cc:1368-1384 | KILL leaves with the name its pattern evaluates to, and goes on behind it; an empty one is passed |
| ExtFunMeaning.FunDefMeans | lib/LibCM/cm_base_ext_fun.cc:1385-1410 | FUNDEF leaves with the evaluated name and code, and fails if either does not evaluate |
| ExtFunMachine.ModifyMeans | lib/LibCM/cm_base_ext_fun.cc:1014-1073 | an entry is refused, and changes nothing, exactly if there is nothing to drop or to change, or nothing that may be defined; otherwise the variable exists unless it was dropped, and no other variable is touched |
| ExtFunMachine.ModifyAllMeans | lib/LibCM/cm_base_ext_fun.cc:1014-1073 | what exists after a whole list of entries, and that an assignment is refused exactly if one of its targets does not exist |
| ExtFun.ExtFun.Exec | lib/LibCM/cm_base_ext_fun.cc:1623-1743 | one round of a function: its state, outcome and next run point are those of the machine started where the last interrupt left off; it is running after LEAVE and not after DONE |
| ExtFun.ExtFun.StartMe | lib/LibCM/cm_base_ext_fun.cc:1759-1776 | a started function runs from its beginning |
| ExtFun.ExtFun.ChangedVar | lib/LibCM/cm_base_ext_fun.cc:1778-1791 | a change wakes exactly those who wait for the variable |
| ExtFun.ExtFun.InfoFunDone | lib/LibCM/cm_base_ext_fun.cc:1872-1878 | the end of the called function wakes exactly the caller who waits for it |
| DbCommon.AddInPlace | lib/LibCM/cm_db_query_common.cc:3-28 | the vector of responses becomes the function `AddToQueryState` of what it was: rows are added to an open command, status and error replaced, a final one stays, and so do all others |
| DbCommon.FeedAppend | lib/LibCM/cm_db_query_list.cc:48-92 | the parser does not depend on how its input is cut |
| DbCommon.ReadsPrefix | lib/LibCM/cm_db_query_list.cc:48-92 | from any initial part of an answer's text an initial part of its records is read, from the whole text all of them |
| DbQueryList.MyQueryList.AddNewQuery | lib/LibCM/cm_db_query_list.cc:346-364 | a query is appended unless its number is in use |
| DbQueryList.MyQueryList.ReceiveData | lib/LibCM/cm_db_query_list.cc:215-290 | a message reaches exactly the running query of that number and service; a piece that does not begin as the first must ends the program |
| DbQueryList.ReceiveMeans | lib/LibCM/cm_db_query_list.cc:165-290 | a refusal ends a running query with its text as error of the open commands; any other message is read on, without the byte before the first; what is no sequence of records ends it with a cancel to send; after the last piece no command is open |
| DbQueryList.MyQueryList.CancelQuery | lib/LibCM/cm_db_query_list.cc:476-520 | a query that can be cancelled is, and finished queries are dropped |
| DbQueryList.MyQueryList.CheckTimeout | lib/LibCM/cm_db_query_list.cc:522-552 | exactly the running queries past their deadline are ended |
| DbQueryList.MyQueryList.Disconnect | lib/LibCM/cm_db_query_list.cc:456-469 | every query is ended, with errors for the commands still open |
| DbQueryList.MyQueryList.GetNewResponses | lib/LibCM/cm_db_query_list.cc:381-415 | the news of all queries in order, up to a limit, and then finished queries are dropped |
| DbQueryList.MyQueryList.RemoveFinishedQueries | lib/LibCM/cm_db_query_list.cc:366-372 | the others stay in their order |
| DbQueryList.MyQueryList.GenerateDataToSend | lib/LibCM/cm_db_query_list.cc:104-163 | at most one message, by the first query that can send into the room there is, and none without room for more than the header: as much of the query as fits, final exactly when it was the rest of a prepared one, or a cancel |
| DbQueryList.RemainingIds | lib/LibCM/cm_db_query_state.cc:3-36 | exactly the queries that cannot be erased stay, with distinct numbers |
| DbQueryList.CancelMeans | lib/LibCM/cm_db_query_list.cc:476-520 | a query not cancelled or aborted yet has a cancel with the reason to send; with a callback its open commands fail with it and those that ended stay as they are, without one nothing more is handed over |
| DbQueryList.TimeoutMeans | lib/LibCM/cm_db_query_list.cc:522-552 | exactly a running query past its deadline is cancelled, and its open commands fail with the message |
| DbQueryList.DisconnectMeans | lib/LibCM/cm_db_query_list.cc:456-469 | a query sends nothing any more; a running one is aborted and its open commands fail |
| DbQueryList.SendMeans | lib/LibCM/cm_db_query_list.cc:104-163 | a query with a cancel sends that, one with text as much as there is room for, marked as the end exactly if it is the end of a prepared query, and no other sends anything |
| DbQueryList.CancelIsSent | lib/LibCM/cm_db_query_list.cc:133-151 | a query that is cancelled sends its cancel message, once, with as much of the reason as fits, as soon as there is room |
| DbLifecycle.Lifecycle | lib/LibCM/cm_db_query_list.cc:165-213 | in every run each command's final status is handed over at most once and is the one on record; only the last item says that the query is completed, exactly when all were handed over; no query is dropped before unless it was cancelled without callback; a running response has a running or prepared query, a completed or aborted one has no open command |
| DbLifecycle.RunSettles | lib/LibCM/cm_db_query_list.cc:456-552 | a final status never changes in any run |
| DbLifecycle.EndsAfterDeadline | lib/LibCM/cm_db_query_list.cc:522-552 | once the deadline was checked after it passed, one unlimited round of callbacks has ended every command |
| DbLifecycle.StepKeeps | lib/LibCM/cm_db_query_list.cc:374-415 | every single event keeps what the life of a query rests on |
| DbListRuns.Apply | lib/LibCM/cm_db_query_list.cc:104-552 | every method of the list does what the runs of lists are made of |
| DbListRuns.OneOperation | lib/LibCM/cm_db_query_list.cc:104-552 | whatever the list does, each of its queries does steps of `DbLifecycle`, and what is handed over with its number is what these steps hand over |
| DbListRuns.CollectAllAt | lib/LibCM/cm_db_query_list.cc:381-415 | a round of callbacks is one for each query, with some items already handed over before |
| DbListRuns.ListLifecycle | lib/LibCM/cm_db_query_list.cc:165-213 | in every run of the list, of every query ever asked: at most one final status of each command is handed over; only the last item says that the query is completed, exactly when every command has ended; a query gone from the list has ended or was cancelled without a callback |
| DbCollecting.CollectMeans | lib/LibCM/cm_db_query_list.cc:165-213 | of one query exactly the first news are handed over, in the order of its commands, each with its rows, status and error, up to the limit but at least one; the others stay news |
| DbCollecting.LimitExceededIff | lib/LibCM/cm_db_query_list.cc:381-415 | a round hands over more than its limit exactly if the queries before one with news have used it up |
| DbCollecting.DroppedIff | lib/LibCM/cm_db_query_list.cc:366-379 | a query is dropped exactly when it has no cancel to send, is not running, and all its commands were handed over or it was cancelled without callback |
| DbResponseList.MyResponseList.CreateNewQuery | lib/LibCM/cm_db_response_list.cc:47-77 | a new query, with nothing received, asked or answered, is taken up unless one of its numbers is in use |
| DbResponseList.MyResponseList.ReceiveData | lib/LibCM/cm_db_response_list.cc:318-367 | pieces are appended while the query is neither complete nor cancelled; the last one is parsed, and then every command waits for its answer or the query has failed |
| DbResponseList.MyResponseList.Respond | lib/LibCM/cm_db_response_list.cc:195-229 | a response counts unless all are prepared or the query is cancelled |
| DbResponseList.MyResponseList.FillResponseBufferIfPossible | lib/LibCM/cm_db_response_list.cc:369-417 | the news of all commands are serialised once, in order |
| DbResponseList.MyResponseList.GenerateDataToSend | lib/LibCM/cm_db_response_list.cc:441-517 | nothing at all without room for more than the header; otherwise at most one message, by the first query that can send into the room there is; those before it are only serialised; a finished query is dropped |
| DbResponseList.MyResponseList.TrySend | lib/LibCM/cm_db_response_list.cc:450-516 | as much of the answer as fits, final exactly when the whole answer is ready and all of it went, or a refusal; the others stay |
| DbResponseList.SendMeans | lib/LibCM/cm_db_response_list.cc:441-517 | exactly when all is prepared, every status is final and the rest goes whole, the piece is the last and the query is dropped; otherwise it stays with what did not go; a cancelled query sends nothing |
| DbResponseList.RespondConsistentIff | lib/LibCM/cm_db_response_list.cc:195-229 | that all is prepared exactly when every command has its final status is kept by an answer exactly if the query was parsed or is cancelled |
| DbResponseList.MyResponseList.Cancel | lib/LibCM/cm_db_response_list.cc:282-306 | exactly the query of that number and service is cancelled, once |
| DbResponseList.MyResponseList.GetCancelledQueries | lib/LibCM/cm_db_response_list.cc:519-530 | exactly the cancelled queries are reported and dropped |
| DbResponseList.MyResponseList.GetNewQueries | lib/LibCM/cm_db_response_list.cc:79-95 | the parsed queries not read before are offered in order, up to the limit, and marked read; the later ones stay as they are |
| DbResponseList.NewIdsAre | lib/LibCM/cm_db_response_list.cc:82-90 | exactly the parsed queries that were not read are new |
| DbResponseList.MyResponseList.Disconnect | lib/LibCM/cm_db_response_list.cc:532-542 | every query is cancelled |
| DbResponseList.WithoutUserIs | lib/LibCM/cm_db_response_list.cc:434-438 | erasing by number takes out exactly one query and leaves the order |
| DbRecords.NewRecordsCarry | lib/LibCM/cm_db_response_list.cc:379-414 | the records written for a command carry its pending rows in order, but for those of a failed one, its error, and its final status last |
| DbRecords.FlushCarries | lib/LibCM/cm_db_response_list.cc:369-417 | serialising all commands carries for each exactly its own news |
| DbRecords.OrderlyFlush | lib/LibCM/cm_db_response_list.cc:369-417 | nothing is ever written for a command after its final record |
| DbRecords.ApplyGoods | lib/LibCM/cm_db_query_list.cc:62-84 | filing records adds exactly their rows and final statuses, command by command |
| DbEndToEnd.RowsArrive | lib/LibCM/cm_db_response_list.cc:441-517 | in every run of two nodes whose answer has at most 2^32 bytes: the rows handed to the asking user are an initial part of those supplied for the command, and all of them once the command was handed over as DONE, which the answering user did say |
| DbEndToEnd.CompleteAnswer | lib/LibCM/cm_db_query_list.cc:187-213 | such an answer received completely has for each command the status the answering user gave, and no row of a DONE command is missing |
| DbEndToEnd.AskedOnce | lib/LibCM/cm_db_state.cc:634-647 | the answering side takes a query up at most once, from an initial part of its text, and parses exactly the whole text |
| DbEndToEnd.PieceKeptWhole | lib/LibCM/cm_db_query_list.cc:260-268 | a piece reaches the parser as sent exactly unless it follows a multiple of 2^32 bytes; then it loses its first byte if that is `t`, and ends the program if not |
| DbEndToEnd.NeverMisread | lib/LibCM/cm_db_query_list.cc:260-268 | in no run does that happen to an answer of at most 2^32 bytes |
| DbLongAnswer.WrapIsReached | lib/LibCM/cm_db_query_list.cc:260-270 | for every query with a command there is a run of the two nodes, byte by byte, that comes to such a piece while it is waited for |
| DbEndToEnd.NextKeeps | lib/LibCM/cm_db_state.cc:588-668 | every step of either node keeps the invariant that ties both lists, both links and what the users did |
| DbEndToEnd.QueryListSends | lib/LibCM/cm_db_query_list.cc:111-162 | what a query sends is a step of the two-node system |
| DbDelivery.AnswerCompletes | lib/LibCM/cm_db_response_list.cc:441-517 | in every run: when every command has its final status and there is something to send, one message with enough room is the last one and drops the query; an asker who still waits has a completed response when he has taken what is on the link |
| DbDelivery.RunConsistent | lib/LibCM/cm_db_response_list.cc:195-229 | in every run all is prepared exactly when every command has its final status |
| VarChanges.ApplyVarChanges | lib/LibCM/cm_var_changes.cc:133-151 | taking changes gives for each name what its entry says |
| VarChanges.CmVarChanges.AddForeignChanges | lib/LibCM/cm_var_changes.cc:54-66 | changes of others are composed with those pending, name by name |
| VarChanges.CmVarChanges.AddForeignUpdate | lib/LibCM/cm_var_changes.cc:5-52 | one variable changed by another: into the set that keeps the three sets disjoint |
| VarChanges.CmVarChanges.AddMyUpdate | lib/LibCM/cm_var_changes.cc:74-107 | a change of mine replaces what is pending and is not told otherwise |
| VarChanges.CmVarChanges.MoveSomeChanges | lib/LibCM/cm_var_changes.cc:153-176 | exactly the changes of matching names are handed over |
| VarChanges.ComposeExactly | lib/LibCM/cm_var_changes.hh:13-28 | taking `a` then `b` equals taking both composed, changed indexes included, exactly if `b` has no indexes in updates of names that `a` created or updated |
| VarChanges.ComposeDropsFields | lib/LibCM/cm_var_changes.hh:13-28 | an example where the documented law fails |
| VarChanges.ComposeTakes | lib/LibCM/cm_var_changes.hh:13-28 | apart from those indexes the law always holds |
| VarChanges.MineCommutes | lib/LibCM/cm_var_changes.cc:68-122 | a change of mine made at once and folded in silently comes out as if made last |
| VarChanges.FoldMeans | lib/LibCM/cm_var_changes.cc:5-52 | a change by another is told as an update exactly if an update of the same type and limits is pending, or no creation and no update is and it is itself an update; changed indexes are told only by the first |
| VarChanges.FoldMineMeans | lib/LibCM/cm_var_changes.cc:74-107 | a change of mine not told leaves nothing pending that was not, and what was pending has my value |
| VarChanges.ComposeKinds | lib/LibCM/cm_var_changes.cc:54-66 | what is composed with nothing stays what it is, a deletion wins over what was before, and a creation after a deletion is one |
| Ownership.ExactlyOneVisible | lib/LibCM/cm_core.cc:4562-4564 | in every run from every configuration and for every name: a name I own collides at every holder; another name with holders has exactly one that does not collide; and what the user was shown, with the pending change, is what is visible |
| Ownership.NextKeeps | lib/LibCM/cm_core.cc:4532 | every operation keeps that |
| Ownership.LeaveKeeps | lib/LibCM/cm_core.cc:849-876 | a leaving partner's names pass on to others or vanish, and the user is told |
| Ownership.DefKeeps | lib/LibCM/cm_core.cc:2029-2051 | a new definition is visible unless the name was, and then nothing visible changes |
| Ownership.UndefKeeps | lib/LibCM/cm_core.cc:2100-2118 | a dropped definition passes the name on |
| Ownership.DefineMineKeeps | lib/LibCM/cm_core.cc:5545-5567 | my definition hides all others, told or not |
| Ownership.UndefineMineKeeps | lib/LibCM/cm_core.cc:4385-4399 | dropping mine passes the name on to a partner |
| Ownership.LoadConfigKeeps | lib/LibCM/cm_core.cc:4450-4464 | what the configuration defines, before there are partners, is visible and will be told; nothing else is |
| OwnershipMeaning.SetValueMeans | lib/LibCM/cm_core.cc:1957-1982 | a value a partner sends is stored in his slot and in no other, and it is what is visible if his variable was |
| OwnershipMeaning.DefMeans | lib/LibCM/cm_core.cc:2029-2051 | a definition is stored, visible exactly if nobody else is, otherwise hidden |
| OwnershipMeaning.UndefMeans | lib/LibCM/cm_core.cc:2100-2118 | after it the partner does not hold the name, and the last colliding holder has it if he was visible |
| OwnershipMeaning.LeaveMeans | lib/LibCM/cm_core.cc:849-876 | a leaving partner's slot is gone and the name passes on in the same way |
| OwnershipMeaning.DefineMineMeans | lib/LibCM/cm_core.cc:5545-5567 | my definition is stored and visible, all partners keep their values, hidden; the user is told or not as asked |
| OwnershipMeaning.UndefineMineMeans | lib/LibCM/cm_core.cc:4385-4399 | mine is gone and the last holder among the partners is visible |
| OwnershipMeaning.ChangeMineMeans | lib/LibCM/cm_core.cc:4250-4283 | my change is stored and visible and no partner's variable is touched |
| OwnershipMeaning.ChangeTheirsMeans | lib/LibCM/cm_core.cc:4515-4566 | the visible holder's value is replaced exactly if it is writable, of the same type and another one |
| OwnershipMeaning.NextKnowsIff | lib/LibCM/cm_core.cc:5545-5567 | every operation keeps that updates are told only of variables the user has, except exactly a repeated definition of mine in the same type before he was told of it |
| OwnershipMeaning.RunKnows | lib/LibCM/cm_core.cc:5545-5567 | so in every run without that |
| OwnershipMeaning.UnknownUpdated | lib/LibCM/cm_core.cc:5545-5567 | an example where he is told of the update of an unknown variable |
| OwnershipCore.CmCore.MarkPartnersCollidingVariables | lib/LibCM/cm_core.cc:4326-4342 | every holder of the name collides, no other name is touched |
| OwnershipCore.CmCore.TryDefineSomeCollidingVariable | lib/LibCM/cm_core.cc:4093-4132 | the last colliding holder becomes visible if nobody is |
| OwnershipCore.CmCore.DoesPartnerVariableCollide | lib/LibCM/cm_core.cc:4704-4729 | true exactly if I or another partner hold the name visibly |
| OwnershipCore.CmCore.InternalChangeMyVariable | lib/LibCM/cm_core.cc:4250-4283 | mine is updated, redefined or defined, and told or not |
| OwnershipCore.CmCore.LoadConfigMyVariables | lib/LibCM/cm_core.cc:651-658 | at the end of the construction every name has the state of a configured one |
| OwnershipCore.CmCore.DefineMyVariable | lib/LibCM/cm_core.cc:5545-5567 | the name's state becomes `DefineMine` of it, all others stay |
| OwnershipCore.CmCore.UndefineVariable | lib/LibCM/cm_core.cc:4385-4399 | the name's state becomes `UndefineMine` of it, all others stay |
| OwnershipCore.CmCore.ProcessDEF | lib/LibCM/cm_core.cc:1991-2054 | the value is in the partner's slot, visible exactly if nobody else holds the name visibly; nobody else's slot and no other name changes, and the set number is kept |
| OwnershipCore.CmCore.ProcessUNDEF | lib/LibCM/cm_core.cc:2061-2118 | the partner's slot is empty, the name passes on if he was visible; no other name changes |
| OwnershipCore.CmCore.ProcessSET | lib/LibCM/cm_core.cc:1886-1982 | a value the partner's variable accepts is stored in his slot, and is what is visible if he was; nobody else's slot and no other name changes; the set number is kept for a variable the partner has, and for no other |
| OwnershipCore.CmCore.ChangePartnerVariable | lib/LibCM/cm_core.cc:4515-4566 | exactly the visible holder's value changes, if it is writable and the value is another; the assertions in the loop and after it hold |
| OwnershipCore.CmCore.NowConnected | lib/LibCM/cm_core.cc:896-931 | an older connection of that number ends, for every name as `Leave` says, and an empty partner is added behind the others, who stay in order |
| OwnershipCore.LeaveIdMeans | lib/LibCM/cm_core.cc:896-931 | the partner of a number, if there is one, leaves, and the others stay in order |
| OwnershipCore.CmCore.ErasePartner | lib/LibCM/cm_core.cc:849-876 | for every name the state becomes `Leave` of it |
| OwnershipCore.CmCore.GetVariable | lib/LibCM/cm_core.cc:4776-4803 | the visible variable, whatever the order of partners |
| OwnershipCore.CmCore.GetAllVariables | lib/LibCM/cm_core.cc:4811-4840 | exactly the visible variables with the flags asked for, whatever the order of partners |
| OwnershipCore.CmCore.GetSomeChanges | lib/LibCM/cm_core.cc:5346-5357 | after taking changes the user has what is visible |
| ArrayCodec.NormalPosition | lib/LibCM/cm_base_variable.cc:1127 | normalising the cursor keeps its position and brings it into its row |
| ArrayCodec.DecodesLinear | lib/LibCM/cm_base_variable.cc:1110-1142 | a run at a position fills exactly its cells in row-major order and leaves the cursor behind them, in rows and in a single column |
| ArrayCodec.DecodesPlain | lib/LibCM/cm_base_variable.cc:1144-1152 | a plain value goes to the cursor's cell and moves the cursor by one |
| ArrayCodec.RectangleMeans | lib/LibCM/cm_base_variable.cc:1110-1142 | an item with rows and columns gives its value to exactly the cells of these columns in these rows, as far as they are in the array, and changes no other of its cells |
| ArrayCodec.RectangleLeaves | lib/LibCM/cm_base_variable.cc:1110-1142 | the cursor then stands behind the last row's cells, if they lie inside |
| ArrayCodec.TokenChanges | lib/LibCM/cm_base_variable.cc:1083-1142 | a token reports a change exactly if a cell, the default value included, got another value |
| ArrayCodec.DefaultWritten | lib/LibCM/cm_base_variable.cc:1130-1138 | a token overwrites the default value, with its own, exactly if one of its rows begins inside the array and ends outside |
| ArrayCodec.DefaultKeptIff | lib/LibCM/cm_base_variable.cc:1130-1138 | a text leaves the default value as it is, whatever the array holds, exactly if none of its tokens does that |
| ArrayDelta.SetVALUES | lib/LibCM/cm_base_variable.cc:1063-1168 | the decoder in place computes `Decode` on all cells with the default value, whose tokens `RectangleMeans`, `DecodesLinear` and `DecodesPlain` describe, and whether a cell changed |
| ArrayDelta.SetValues | lib/LibCM/cm_base_variable.cc:602-633 | exactly the given cells get the value; reports whether one differed |
| ArrayDelta.GetDelta | lib/LibCM/cm_base_variable.cc:1198-1226 | the encoder of changed cells computes `Delta` |
| ArrayDelta.DeltaDecodes | lib/LibCM/cm_base_variable.cc:1201-1224 | wherever the cursor and the encoder agree, the rest of a delta puts the listed cells in place and no other |
| ArrayDelta.DeltaRestoresIff | lib/LibCM/cm_base_variable.cc:1201-1222 | for all old and new values a delta changes the listed cells and no other exactly if the first listed index is not 65536 |
| ArrayDelta.DiffFields | lib/LibCM/cm_base_variable.cc:352-416 | the list of exactly those candidates that differ, the default value left out |
| ArrayDelta.DiffOfContains | lib/LibCM/cm_base_variable.cc:379-408 | an index is listed exactly if it is a candidate in range and differs |
| ArrayDelta.CopyIndexes | lib/LibCM/cm_base_variable.cc:328-350 | the listed cells, or all, are copied in place, but not the default value |
| ArrayDelta.SyncByDelta | lib/LibCM/cm_base_variable.cc:418-423 | differences found, encoded and decoded give the receiver the sender's values and leave his default value, always up to 65536 cells |
| ArrayDelta.GetRuns | lib/LibCM/cm_base_variable.cc:1227-1257 | the run-length encoder computes `RunsFrom` |
| ArrayDelta.RunsDecode | lib/LibCM/cm_base_variable.cc:1227-1257 | the decoder's cursor is at the encoder's index before every token |
| ArrayDelta.RunsRestore | lib/LibCM/cm_base_variable.cc:1227-1257 | the whole array is restored in every shape, whatever was there, and the default value stays |
| ArrayStrings.StringFaithfulIff | lib/LibCM/cm_base_variable.cc:565-573 | a string cell is read back exactly if it has no zero byte |
| ArrayStrings.StringArraysRestore | lib/LibCM/cm_base_variable.cc:506-508 | arrays of such strings are restored by runs and by deltas, and the default value stays |
| Escape.EscapeSpecialCharsAndAdvance | lib/LibCM/cm_string.cc:722-770 | as many units as stay below the limit are escaped, none is split, the rest stays |
| Escape.FitsMostUnique | lib/LibCM/cm_string.cc:722-770 | that determines the number of units |
| Escape.EscapedPrintable | lib/LibCM/cm_string.cc:722-770 | whatever a text holds, escaped it is made of the bytes 32 to 127 |
| Escape.EscapedSameIff | lib/LibCM/cm_string.cc:722-770 | a text stays as it is, and as long, exactly if it is made of these and has no quote and no backslash |
| Escape.UnescapeSpecialCharsAndAdvance | lib/LibCM/cm_string.cc:783-822 | the reading loop computes `Unescape`, errors included |
| Escape.UnescapeEscaped | lib/LibCM/cm_string.cc:783-822 | reading an escaped string up to its quote gives the string and what follows |
| Fragments.GenerateMessage | lib/LibCM/cm_fragments.cc:54-100 | a fragment comes out exactly if one is due, the header fits and the next unit does; otherwise nothing changes |
| Fragments.FragmentFits | lib/LibCM/cm_fragments.cc:63-72 | a fragment is shorter than its limit |
| Fragments.FragmentsToSend.Commit | lib/LibCM/cm_fragments.cc:38-47 | the committed state is one whose fragments carry exactly what is gone from the message |
| Fragments.Reassembles | lib/LibCM/cm_core.cc:2132-2167 | for all limits, discarded batches, other commands in between and remains of earlier messages: the receiver processes the message exactly once, when it was sent to its end; fragments are NEW, ADDs, END, at least two |
| Fragments.ProgressStep | lib/LibCM/cm_fragments.cc:74-99 | each fragment carries on the part of the message the receiver has |
| Fragments.Interleaved | lib/LibCM/cm_core.cc:2135-2166 | other commands and fragments do not disturb each other |
| Fragments.GeneratingEnds | lib/LibCM/cm_fragments.cc:84-99 | every fragment brings the end closer |
| Fragments.EnoughRoom | lib/LibCM/cm_fragments.cc:63-82 | a limit always suffices exactly if it leaves five units for the body |
| GenerateChanges.EraseVariables | lib/LibCM/cm_generate_changes.cc:371-390 | a queue loses exactly the given positions and keeps its order |
| GenerateChanges.PartnerQueues.AddMsg | lib/LibCM/cm_generate_changes.cc:31-85 | a change is put in, exactly if there is room: in fragments if it is longer than the buffer takes whole, otherwise whole; if there is none nothing happens |
| GenerateChanges.PartnerQueues.AddVariablesToSend | lib/LibCM/cm_generate_changes.cc:311-344 | of the changes the buffer takes whole exactly those are prepared that are due and fit; of the longer ones only such as are due; what is prepared has begun to leave, the others have not |
| GenerateChanges.PartnerQueues.GenerateFragments | lib/LibCM/cm_generate_changes.cc:430-459 | the fragmentation goes on by at most two fragments |
| GenerateChanges.PartnerQueues.CommitChanges | lib/LibCM/cm_generate_changes.cc:461-468 | prepared entries leave the queues, and the fragmentation is taken over or ends |
| GenerateChanges.PartnerQueues.GenerateDataToSend | lib/LibCM/cm_generate_changes.cc:497-536 | either a message leaves, with every change that is due, short enough and has room in it, and nothing that is not due; the others stay queued in order, and no variable is in it whole that is being sent in fragments; or nothing has happened, because there was no room for anything due; and every text ever queued is still queued or left once |
| GenerateChanges.SendPlain | lib/LibCM/cm_generate_changes.cc:80-84 | a whole change in the message is processed by the receiver, once |
| GenerateChanges.SendMore | lib/LibCM/cm_generate_changes.cc:441-451 | a further fragment keeps the account of what the receiver has |
| GenerateChanges.SendFirst | lib/LibCM/cm_generate_changes.cc:61-75 | so does a first fragment |
| FiltersSet.ErasesIff | lib/LibCM/cm_base_filters_set.cc:270-307 | a filter that is in the set is erased by its name exactly if the name is not empty |
| FiltersSet.UnchangedVerdict | lib/LibCM/cm_base_filters_set.cc:126-182 | an addition that reports no change changes no verdict |
| FiltersSet.AddSorted | lib/LibCM/cm_base_filter.cc:23-49 | every filter is in the map of its class |
| FiltersSet.AddPasses | lib/LibCM/cm_base_filters_set.cc:126-182 | after an addition exactly the names pass that passed before or that the filter lets pass: all for stars alone, what matches for another pattern, itself for a plain name; a single star to be degraded adds nothing |
| FiltersSet.EraseUndoesAdd | lib/LibCM/cm_base_filters_set.cc:270-307 | erasing a filter just added gives the set from before exactly if its name is not empty |
| FiltersSet.CCmFiltersSet.AddFilter | lib/LibCM/cm_base_filters_set.cc:126-182 | adding, merging or replacing as `Add` says; the cache stays right |
| FiltersSet.CCmFiltersSet.EraseName | lib/LibCM/cm_base_filters_set.cc:270-307 | erasing as `Erase` says; the cache stays right, and the longest star name is known as long as none is above 255 |
| FiltersSet.CCmFiltersSet.SetSmart | lib/LibCM/cm_base_filters_set.cc:18-30 | switching the cache on starts with an empty one |
| FiltersSet.CCmFiltersSet.Test | lib/LibCM/cm_base_filters_set.cc:385-467 | with the cache or without, the verdict is that of a search |
| FilterSync.FlatErase | lib/LibCM/cm_base_filters_set.cc:270-307 | seen as a map, erasing removes the name unless it is empty |
| FilterSync.FlatAdd | lib/LibCM/cm_base_filters_set.cc:165-181 | seen as a map, adding puts in, merges or replaces |
| FilterSync.CommitSettles | lib/LibCM/cm_generate_filter_changes.cc:116-130 | committing one of the three sets takes the chosen out of it and leaves the other two as they are |
| FilterSync.CommitMeans | lib/LibCM/cm_generate_filter_changes.cc:116-130 | a commit makes the partner's set agree with ours at the chosen names, and changes it at no other |
| FilterSync.NothingLeftIff | lib/LibCM/cm_generate_filter_changes.cc:138-187 | nothing is left to send exactly if the sets agree but for filters the partner need not know of |
| FilterSync.InStepIff | lib/LibCM/cm_generate_filter_changes.cc:138-187 | for a partner who needs all, exactly if the sets are equal |
| FilterSync.CommitProgress | lib/LibCM/cm_generate_filter_changes.cc:102-135 | each commit leaves exactly that many fewer differences to send |
| FilterSync.EmptyNameStays | lib/LibCM/cm_generate_filter_changes.cc:120-125 | a deleted filter with the empty name stays a difference for ever |
| FilterSync.FilterSender.TryAddChanges | lib/LibCM/cm_generate_filter_changes.cc:70-136 | the filters that fit, up to one that does not, are committed, or nothing if the message could not be finished; full exactly if it was all that are to be sent |
| FilterSync.FilterSender.CompareFiltersAndGenerateChangeMessage | lib/LibCM/cm_generate_filter_changes.cc:162-216 | a call that sends leaves fewer differences, in messages of one kind, definitions before deletions before changes; it reports false exactly when none is left, unless the empty name is to be deleted, sends nothing only if something did not fit, and a partner handling the messages in order has the same set |
| FilterText.TextFaithfulIff | lib/LibCM/cm_base_filter.cc:91-162 | a filter comes back from its text exactly if its name has no bracket, no row of its indexes is empty, and it is one whose name was never set exactly if its text is empty |
| FilterText.RowsRead | lib/LibCM/cm_base_filter.cc:67-88 | the rows of indexes are read back but for the empty ones |
| FilterText.PartnerHas | lib/LibCM/cm_generate_filter_changes.cc:70-83 | a partner who reads the texts of the messages in order has the set that is kept here of him |
| Average.SameOutput | lib/LibCM/cm_base_ext_average.cc:111-187 | from what is stored the same comes out as from the whole history, now and at every later time, for AVG, MAX and MIN |
| Average.StoreAsGood | lib/LibCM/cm_base_ext_average.cc:119-126 | leaving out repeated values loses nothing |
| Average.PruneAsGood | lib/LibCM/cm_base_ext_average.cc:131-137 | dropping old samples loses nothing for this and later windows |
| Average.AverageBetween | lib/LibCM/cm_base_ext_average.cc:94-109 | the average lies between the smallest and the largest value in the window |
| Average.BetweenExtremes | lib/LibCM/cm_base_ext_average.cc:141-166 | because the durations add up to the window |
| Average.OutputCorrect | lib/LibCM/cm_base_ext_average.cc:139-187 | the specification of the output has these properties for every history |
| Average.ActionAverage.Eval | lib/LibCM/cm_base_ext_average.cc:111-187 | the result is that of the whole history; for AVG its product with the period is the integral, it lies between the smallest and the largest value of the window and is the only value if there is one; for MAX and MIN it is a value of the window that none exceeds or undercuts; there is one exactly if a sample is old enough and, for AVG, the period is positive |
| Average.ActionAverage.Cumulate | lib/LibCM/cm_base_ext_average.cc:139-166 | the loop computes the integral and the whole duration, or the extreme value |
| Average.ActionAverage.StripOld | lib/LibCM/cm_base_ext_average.cc:131-137 | of the samples before the window only the last is kept |
| RateLimit.WindowBounded | lib/LibCM/cm_core.cc:3183-3219 | in every run the bytes in the window are at most twice those allowed and one message, if the two together have room in 32 bits, as bits |
| RateLimit.WindowBoundedIff | lib/LibCM/cm_core.cc:3208-3213 | where messages may be as long as what is allowed, that holds of all runs exactly under this condition |
| RateLimit.HistoryIsWindow | lib/LibCM/cm_core.cc:3186-3199 | what is kept is exactly what was sent in the window |
| RateLimit.HistoryIsTail | lib/LibCM/cm_core.cc:3186-3199 | these are the messages from the first on that is not older than the window |
| RateLimit.BlockMeans | lib/LibCM/cm_core.cc:3200-3219 | the time blocked times the speed is the excess over the bytes allowed, in bits modulo 2^32, and there is none without excess |
| RateLimit.LongWait | lib/LibCM/cm_core.cc:3208-3213 | more than twice what is allowed is waited for longer than a window |
| RateLimit.Partner.CalculateSendBlockUntil | lib/LibCM/cm_core.cc:3162-3229 | the loops compute `Logged` |
| RateLimit.Partner.EvalSendForPartnerWhenInited | lib/LibCM/cm_core.cc:3462-3518 | all messages the kinds supply in turn are sent, in order and with their sizes, until the link is blocked or no kind has any, and none while it is blocked, so its runs are those the bound is about |
| Services.MyServices.GenerateAcceptedServicesToSend | lib/LibCM/cm_db_state.cc:743-790 | a service told is one the partner may use and was not told of, one withdrawn is no longer offered, and only when no new one fits; each message leaves one service fewer to tell or withdraw; there is none only if none fits; with none left, what is wanted is told and what is told is offered; a partner handling the messages in order has the same table |
| Services.GetFreshServiceId | lib/LibCM/cm_db_state.cc:732-740 | the probe ends, with an unused number below 512, exactly if fewer than 256 services are known |
| Services.UsedInARow | lib/LibCM/cm_db_state.cc:736-738 | no more numbers in a row are used than there are services |
| Services.PartnersServices.ReceiveMsgAccept | lib/LibCM/cm_db_state.cc:532-560 | a service is added exactly if name and number are new and valid |
| Services.PartnersServices.ReceiveMsgReject | lib/LibCM/cm_db_state.cc:563-586 | exactly the service of that number is taken out |
| Services.AlwaysInjective | lib/LibCM/cm_db_state.cc:532-586 | no sequence of messages gives one number to two services |

## Left out

- Scripts: SYSEXEC and DEBUGPRINT, and copying the results of a round into the variables of the node (`lib/LibCM/cm_base_ext_fun.cc:1672-1728`). The expression evaluator is any partial function of an environment that it may change. Loops need not end, so runs carry fuel; running out of it is an outcome the code does not have.
- Queries: forwarded queries, compression, and services withdrawn while a query is under way; the text parser is any automaton that reads records back one by one. Numbers of queries are distinct, as the code sees to it.
- DbEndToEnd.RowsArrive: for answers of at most 2^32 bytes. That a misread piece of a longer one always harms the rows is not claimed, since it may be refused by the parser.
- DbListRuns.ListLifecycle: no number is used for two queries in a run; the code refuses numbers in use and draws new ones.
- Ownership: master and slave mode, priorities, modification times, control variables, saving to files. `ClearMyVariables` never removes anything and is not part of this model.
- OwnershipCore.CmCore.ProcessUNDEF: asks that the partner has defined the name at some time; the code asserts it (`lib/LibCM/cm_core.cc:2088`).
- OwnershipCore.CmCore.ChangePartnerVariable: a change that the partner refuses counts as not made by the user, though the code reports it as made.
- Arrays: variables that are no arrays, splitting the text into tokens, printing and reading numbers, negative indexes, counts below one, protected indexes. Sizes have no bound, so wrap-around of indexes above 2^32 is not modelled.
- Fragments: splitting of the reassembled command into items.
- GenerateChanges.PartnerQueues.Enqueue: the name must not be queued yet; merging a change into one already queued is not modelled. That no name is queued both as mine and as the partner's is what the code asserts (`lib/LibCM/cm_generate_changes.cc:45-46`).
- GenerateChanges.PartnerQueues.GenerateDataToSend: attempts are bounded by fuel; the code tries until a message can be finished.
- Set numbers, their conflicts, and the merging of index lists of filters, where the code also clears the list it reads.
- FiltersSet: verdicts on variables with changed indexes; only those on names.
- FilterSync.FlatAdd: for filters with a name; the empty one may be in either of two classes.
- FilterSync: sets are maps from names, so a set holding the empty name in two classes is not modelled; neither is the assertion that names consist of letters, digits, `_`, `?` and `*`.
- Average.ActionAverage.Eval: sampling times increase strictly, and rounding is not modelled.
- RateLimit.WindowBounded: one direction where no message is as long as what is allowed; how long the waits in between are then decides. Limits for which what is allowed in a window has no room in 32 bits are not the ones of the code, whose conversion is undefined there.
- FilterText: splitting messages at commas, and reading numbers that are not decimal, which stands for any function.
- Services.MyServices.GenerateAcceptedServicesToSend: asks for at most 256 services known or wanted, and for names; the code asserts the first and its partner refuses the second.
- Sockets, threads, UDP, wake-ups, live debugging, saved files, configuration: not part of this model.
