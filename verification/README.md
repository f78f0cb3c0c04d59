# obclient: a verified model of its stateful parts

obclient is the command-line client of OceanBase, with the tools around it. This project models the parts
of it that keep state from call to call, in Dafny 4.11, and proves what they are for. The whole project is
given to the verifier with `dafny verify dfyconfig.toml`.

**Statement splitter** (`add_line`, MySQL mode, single-byte characters). The client gets its input line by
line and must find where statements end, while strings and comments may span lines. `StatementLine` is the
scan of one line as a function, `StatementSplitter` the scan as the code does it, reading and writing the
same buffer, and `StatementLexer` a scanner of a whole text that knows nothing of lines or buffers. The
main result, `LinesFindTheStatements`, is that for every text feeding its lines meets a client command
exactly if the scanner does, and otherwise the lines are cut at exactly the offsets where the scanner cuts
the text, with the statements sent and the remainder the same character for character, whether comments are
kept or skipped; server-side comments, backslashes at the end of a line and the space the client puts after a
comment are included.

**Batch line reader**. A growing and shifting buffer over a `read()` that may return any number of bytes.
Whatever it returns, the lines are those of the stream, or, if the size limit cuts one, pieces that still
add up to the stream. `BatchClient.Batch` puts reader and splitter together, from a byte order mark in front
of the first line to the unterminated statement sent at the end.

**Completion index**. A chained hash of all prefixes of all words, which must agree with filtering the list
of words; the longest match is found from bucket counts alone. Its existence test does not find every word
that was added, and `ExistsCondition` says exactly which it finds.

**Binlog events** (mysqlbinlog). The window of events printed; the assembly of interleaved LOAD DATA
blocks into files; and flashback, which prints the inverse of a log. A printed LOAD DATA statement turns the
backslashes in the name of its file, so it names that file exactly if there are none in the directory and the
base name, and otherwise names none of the files of the run; `Run` and `NamesItsFile` say so, and
`BackslashInName` is such a log. The row events' bytes are inverted in place if their table has been mapped,
events are held back, reordered, re-flagged and deleted, and the main result, `FlashbackUndoes`, is about the
effect: a replica that executes the rows stored in a log, and then those in its flashback output, has every
table as before, table contents never leaving what the table's rules (unique keys, say) allow. How long a row
image is comes from the table's definition and is a parameter; it is taken to depend on the image's own bytes
only.

**Login file** (mysql_config_editor). Sections of options in a text that is searched and cut in place and
stored encrypted line by line. From file to file every set and remove command changes the list of login paths,
and the map it stands for, as it says. If a line has become too long the file is left with the lines before
it. Encryption and decryption are taken as inverse functions.

**Import pool and literals** (mysqlimport). The mutex and condition protocol of the worker threads as a state
machine over all interleavings, and the literals written for field options, read back as the server reads
them.

**Error-message compiler** (comp_err). Numbering of errors, gaps and sections, and the layout of the message
file as a reader of its bytes finds the rows. Two of its accounts hold only when the first numbering line
comes before all errors; the lemmas give the exact conditions. Stored lengths have 16 bits, which is enough
for every text the compiler reads, since its lines have less than 1000 characters (`EveryRowFound`).

**Connect strings** (Oracle style). The rewriting of `user/password@host:port` in the line and the argument
extraction after it, for the command as a word and in its short form (a backslash and one character), with the
password in quotes or not. The code counts words from the start of the line, copies the password into 128
bytes and keeps 32 bits of the port. So the four fields come back exactly if the command starts the line and
has a space after it, or neither; the password has less than 128 characters and, if quoted, something between
its quotes; and the port is below 2^32 (or, with a space both before and after the command, by a coincidence
of password, host and port). `FieldsExactly` gives the condition. `ShortCommandAlone` is the line `\ru/p@h:1`,
of which only the user is taken, `TabBeforeCommand` one with the password in place of the host, and
`LongPassword` one whose password does not fit, from where on nothing is defined. Blanks, tabs and line ends in
front of a command are dropped before this code is reached (client/mysql.cc:7411-7420); a vertical tab or form
feed is not.

Where code and comments disagree the code is followed: `fill_buffer` treats a file that ends without a
newline as if it had one, and the last row length in errmsg.sys is computed after the file has been rewound.

## Model

| member | source | states |
|---|---|---|
| `StatementLine.EscapeStep` | client/mysql.cc:2855-2928 | a backslash moves the scan on within the line, or ends it, or is a client command |
| `StatementLine.DelimiterStep` | client/mysql.cc:2962-3000 | past a delimiter, its spaces and a trailing comment, the scan has moved on within the line |
| `StatementLine.Step` | client/mysql.cc:2827-3117 | every branch moves the read position on and keeps its distance to the end of the line |
| `StatementSplitting.EscapeAgrees` | client/mysql.cc:2855-2928 | an escape in the line takes the scanner of the whole text to the same place, with the same text, or to a client command |
| `StatementSplitting.EscapeAtEnd` | client/mysql.cc:2863-2864 | a backslash at the end of a line is dropped by both, and the string or statement goes on |
| `StatementSplitting.SkipAgrees` | client/mysql.cc:2830-2836 | a blank in front of a statement is skipped by both when comments are |
| `StatementSplitting.TakenView` | client/mysql.cc:2962-2984 | blanks behind a delimiter, and a comment behind them, join the statement if comments are kept |
| `StatementSplitting.TrailerAgrees` | client/mysql.cc:2965-2984 | the whole text shows the same blanks and comment there as the line |
| `StatementSplitting.DelimiterStepAgrees` | client/mysql.cc:2962-3000 | at a delimiter, line and whole text give the same statement, or the same client command, and go on alike |
| `StatementSplitting.LineCommentAgrees` | client/mysql.cc:3001-3056 | a line comment ends the line, and is kept, as a statement of its own exactly when the buffer was empty, or skipped |
| `StatementSplitting.BlockAgrees` | client/mysql.cc:3057-3074 | the opening of a block comment |
| `StatementSplitting.CloseAgrees` | client/mysql.cc:3075-3094 | its end, with the space owed after it |
| `StatementSplitting.PlainOutside` | client/mysql.cc:3095-3117 | a character outside strings and comments, including quotes and server-side comments |
| `StatementSplitting.PlainInComment` | client/mysql.cc:3095-3117 | a character inside a block comment |
| `StatementSplitting.PlainInString` | client/mysql.cc:3095-3117 | a character inside a string |
| `StatementSplitting.StepAgrees` | client/mysql.cc:2827-3117 | one turn of the loop leaves the scanner's result for the whole remaining text unchanged |
| `StatementSplitting.LoopAgrees` | client/mysql.cc:2827-3117 | so does the whole loop |
| `StatementSplitting.NewlineAgrees` | client/mysql.cc:3119-3159 | and the end of the line, the newline appended or not, and the command looked for there |
| `StatementSplitting.AddLineAgrees` | client/mysql.cc:2766-3159 | a line fed to `add_line` is a line passed by the scanner, in every carried state, and left to a command exactly if the scanner meets one |
| `StatementSplitting.FeedAgrees` | client/mysql.cc:2586-2604 | so are any lines one after the other, with the command check at the start of each |
| `StatementSplitting.LinesFindTheStatements` | client/mysql.cc:2766-3159 | for every text, fed line by line with comments kept or skipped: a client command is met exactly if one scan of the whole text meets one, and otherwise delimiter offsets, statements sent and remainder are exactly those of the scan |
| `StatementSplitting.FeedFinishes` | client/mysql.cc:2855-3159 | with no text read as a command, every text is fed to its end, comments kept or not |
| `StatementSplitter.Put` | client/mysql.cc:3110-3115 | writing into the part of the line already read leaves the unread part as it is |
| `StatementSplitter.Flush` | client/mysql.cc:2970-2975 | what has been written goes to the statement buffer |
| `StatementSplitter.Escape` | client/mysql.cc:2855-2928 | the branch in place does what the function says, within the line |
| `StatementSplitter.CopySpaces` | client/mysql.cc:2965-2969 | all spaces after a delimiter are copied, without overtaking the reading |
| `StatementSplitter.Delimiter` | client/mysql.cc:2962-3000 | the delimiter branch in place |
| `StatementSplitter.LineComment` | client/mysql.cc:3001-3056 | the line comment branch in place |
| `StatementSplitter.Bracket` | client/mysql.cc:3057-3094 | both block comment branches in place |
| `StatementSplitter.AddFound` | client/mysql.cc:3106-3116 | a character, and the space owed before it, fit before the read position |
| `StatementSplitter.Plain` | client/mysql.cc:3095-3117 | the branch for all other characters in place |
| `StatementSplitter.SkipParameters` | client/mysql.cc:2896-2919 | a command's parameters are skipped up to the first end of the server-side comment, or past the first delimiter, or to the end of the line |
| `StatementSplitter.Iterate` | client/mysql.cc:2827-3117 | one turn of the loop in place: never writing past the read position, never both in a string and a comment |
| `StatementSplitter.Scan` | client/mysql.cc:2827-3117 | the loop in place computes the loop as a function |
| `StatementSplitter.FinishLine` | client/mysql.cc:3119-3159 | after the loop, what is left on the line and its newline go to the buffer, and the newline fits |
| `StatementSplitter.AddLineInPlace` | client/mysql.cc:2766-3159 | `add_line` on its buffer is `AddLine`, the final newline fits, and the carried state stays sound in every run, with either comment setting |
| `LineReader.LineBuffer.constructor` | client/readline.cc:111-123 | an empty buffer of one block before the stream |
| `LineReader.LineBuffer.MyRead` | client/readline.cc:201-206 | any non-empty part of what was asked for, nothing only at the end of the stream |
| `LineReader.LineBuffer.MakeRoom` | client/readline.cc:167-191 | room for at least a block, after doubling at most once, or the size limit is hit |
| `LineReader.LineBuffer.Shift` | client/readline.cc:193-198 | the bytes of the unfinished line move down unchanged |
| `LineReader.LineBuffer.Receive` | client/readline.cc:200-223 | what was read is appended, a missing last newline supplied, and the sentinel fits; after an error the line cursors are as before |
| `LineReader.LineBuffer.FillBuffer` | client/readline.cc:157-224 | filling loses and reorders nothing, or reports the limit or an error |
| `LineReader.LineBuffer.ScanForNewline` | client/readline.cc:236-238 | the first newline not yet looked at, or the end of the data |
| `LineReader.LineBuffer.InternReadLine` | client/readline.cc:227-265 | the first line of what is pending, or, at the limit, a newline-free piece of it |
| `LineReader.LineBuffer.Chop` | client/readline.cc:62-78 | a newline goes, and in text mode a carriage return before it |
| `LineReader.LineBuffer.BatchReadline` | client/readline.cc:57-79 | each call returns the first line of the pending stream and leaves the rest, or a truncated piece |
| `LineReader.ReadAll` | client/readline.cc:57-265 | for every stream and every way of cutting it: untruncated pieces are its lines; if all lines fit none is truncated; in binary mode the pieces restore the stream, up to a last newline |
| `BatchClient.TakeLine` | client/mysql.cc:2586-2604 | a line is a command to run, or goes to the splitter in place |
| `BatchClient.FeedInPlace` | client/mysql.cc:2448-2605 | lines taken one after the other, the first without its byte order mark, carry the state that `Feed` says up to a line with a NUL, which ends the run |
| `BatchClient.RemoveCntrl` | client/mysql.cc:6990-6997 | exactly the non-graphic characters at the end go |
| `BatchClient.Batch` | client/mysql.cc:2428-2617 | reader and splitter together: the statements sent for a stream whose lines fit are exactly those of one scan of its text, the trimmed remainder last, whatever the sizes of the reads |
| `CompletionHash.Hashpjw` | client/completion_hash.cc:28-40 | the hash of a key depends on its characters only, computed in 32 bits |
| `CompletionHash.LongerPrefixMatchesLess` | client/completion_hash.cc:192-199 | a longer prefix matches no more words, and the same words if as many |
| `CompletionHash.UpdatedStored` | client/completion_hash.cc:60-111 | one update adds one entry under one key and changes no other key's entries |
| `CompletionHash.UpdatedFormed` | client/completion_hash.cc:60-111 | chains keep distinct keys, right counts and the word that created each bucket |
| `CompletionHash.UpdateHolds` | client/completion_hash.cc:224-225 | each update of `add_word` brings the index one prefix further |
| `CompletionHash.HashTable.constructor` | client/completion_hash.cc:42-57 | an empty table is the index of no words |
| `CompletionHash.HashTable.Update` | client/completion_hash.cc:60-111 | the chain walk and insertion do what `Updated` says; an empty key is refused |
| `CompletionHash.HashTable.AddWord` | client/completion_hash.cc:220-226 | the index of the words becomes that of the words and this one |
| `CompletionHash.HashTable.Find` | client/completion_hash.cc:113-133 | nothing exactly if no word has the prefix, else its bucket: all such words, newest first, and their number |
| `CompletionHash.HashTable.FindAllMatches` | client/completion_hash.cc:158-171 | the same, with the length of the prefix |
| `CompletionHash.HashTable.FindLongestMatch` | client/completion_hash.cc:173-202 | the longest common prefix of all words that start with the given one, and its bucket, found by comparing counts |
| `CompletionHash.HashTable.Exists` | client/completion_hash.cc:136-156 | true exactly if the earliest added word with this prefix is the word itself |
| `CompletionHash.ExistsCondition` | client/completion_hash.cc:136-156 | so a word is found exactly if it was added before every longer word that extends it |
| `CompletionHash.ExistsMissesAWord` | client/completion_hash.cc:136-156 | two words, the longer one added first, of which the shorter is not found |
| `CompletionGenerator.WalkYieldsTheWords` | client/mysql.cc:3358-3389 | the walk over all chains yields every non-empty added word as often as it was added |
| `CompletionGenerator.Generator.SeekChain` | client/mysql.cc:3352-3361 | the next used chain, or that all later ones are empty |
| `CompletionGenerator.Generator.Advance` | client/mysql.cc:3366-3386 | one entry further in the walk, across buckets and chains |
| `CompletionGenerator.Generator.Walk` | client/mysql.cc:3363-3389 | the next whole word of the walk, or none if none is left |
| `CompletionGenerator.Generator.Next` | client/mysql.cc:3318-3393 | each call hands out the next of what is left, and nothing exactly when nothing is |
| `CompletionGenerator.Generator.Round` | client/mysql.cc:3318-3393 | a round of calls ends and yields the matches newest first, or with empty text every non-empty word with its multiplicity |
| `EventWindow.Window.Decide` | client/mysqlbinlog.cc:1062-1093 | an event is skipped, printed or ends the run as the window defined over the whole event sequence says |
| `EventWindow.Dump` | client/mysqlbinlog.cc:1042-1093 | a run prints exactly the events the window shows, in order, and stops exactly if an admitted event is past the end |
| `EventWindow.WindowIsARange` | client/mysqlbinlog.cc:1062-1093 | between two printed events only events of other servers are missing, whatever the timestamps between |
| `RowImages.UndoOne` | sql/log_event.cc:3290-3317 | a row change and its inverse leave the table as it was |
| `RowImages.UndoRestores` | sql/log_event.cc:3249-3348 | so do the rows of an event and their inverses in reverse order, within what the table allows |
| `RowImages.SwapParts` | sql/log_event.cc:3304-3316 | the old and the new image of an updated row change places, whatever their lengths |
| `RowImages.CutRows` | sql/log_event.cc:3268-3333 | the rows of an event are cut apart at the lengths read from them |
| `RowImages.ChangeToFlashbackEvent` | sql/log_event.cc:3249-3348 | the stored event ends up with the encoding of the inverse rows, last first, and is otherwise unchanged |
| `RowImages.DecodedRows` | sql/log_event.cc:3268-3303 | cutting rows by the lengths read loses nothing, and every image cut reads the same wherever it stands |
| `RowImages.EncodedDecodes` | sql/log_event.cc:3268-3303 | rows so encoded are cut at their own boundaries |
| `RowImages.FlippedDecodes` | sql/log_event.cc:3738-3786 | the changed bytes of an event are as many, and decode, as an event of the opposite kind, to the inverse rows, last first |
| `Flashback.Processor.PrintHeld` | client/mysqlbinlog.cc:3154-3162 | the held outputs come out last first |
| `RowImages.FlipStored` | sql/log_event.cc:3738-3786 | the stored rows of any event changed in place become those bytes |
| `Flashback.Processor.PrintRows` | sql/log_event.cc:12220-12290 | a rows event, its kind turned and, if its table is mapped, its stored rows changed, goes to the cache, and with its flag on everything cached becomes its output; or its rows cannot be told apart |
| `Flashback.Processor.PrintPending` | client/mysqlbinlog.cc:991-1000 | the pending events are printed last first, and all of it is the output of the first |
| `Flashback.Processor.PrintRowEvent` | client/mysqlbinlog.cc:902-1019 | flags move to the first event, events wait for the end of the statement, and then all but the last are deleted |
| `Flashback.Processor.ProcessEvent` | client/mysqlbinlog.cc:1298-1564 | one event changes pending events, cache, held outputs and deletions as `Step` says |
| `Flashback.Run` | client/mysqlbinlog.cc:3154-3175 | a whole run and its final printing in reverse; it gives up exactly if a statement ends whose rows cannot be told apart |
| `FlashbackUndo.StatementRows` | client/mysqlbinlog.cc:911-1008 | the rows events of a statement come out in reverse, only the first logged one ending it, and all are deleted in order |
| `FlashbackUndo.GroupStep` | client/mysqlbinlog.cc:1436-1564 | a complete statement leaves nothing pending or cached |
| `FlashbackUndo.FlashbackReverses` | client/mysqlbinlog.cc:3154-3162 | for every run of complete statements that map their tables the output is the inverse of each, last statement first, and every event is deleted exactly once, in log order |
| `FlashbackUndo.NeverGivesUp` | sql/log_event.cc:3274-3303 | a log that a replica executes never makes the run give up |
| `FlashbackUndo.PrintedInverse` | sql/log_event.cc:3258-3260 | rows events of mapped tables are printed as their inverses |
| `FlashbackUndo.ExecEnded` | client/mysqlbinlog.cc:911-920 | a statement executes exactly if its tables are mapped before it ends and all its rows apply |
| `FlashbackUndo.UndoEvents` | client/mysqlbinlog.cc:991-1000 | rows events and then their inverses last first restore all tables |
| `FlashbackUndo.UndoStatement` | client/mysqlbinlog.cc:911-1008 | a statement and then its printed inverse, table maps and end flags included, restore all tables |
| `FlashbackUndo.FlashbackUndoes` | client/mysqlbinlog.cc:3150-3175 | executing the stored rows of a log and then those of the flashback output for it restores every table |
| `LoadFiles.InterleavingIsHarmless` | client/mysqlbinlog.cc:660-698 | what is gathered for a file id depends on the events of that id only |
| `LoadFiles.GathersFirstAndAppended` | client/mysqlbinlog.cc:532-598 | it is the first block and all blocks appended since |
| `LoadFiles.Processor.CreateUniqueFile` | client/mysqlbinlog.cc:291-303 | a file that did not exist, or all thousand names are taken |
| `LoadFiles.Processor.ProcessFirstEvent` | client/mysqlbinlog.cc:532-598 | a new file is entered for the id, growing the array, and nothing else is touched |
| `LoadFiles.Processor.ProcessAppend` | client/mysqlbinlog.cc:660-698 | the block goes to the file of its id only, or is passed over |
| `LoadFiles.Processor.Grab` | client/mysqlbinlog.cc:358-400 | the matching execute event takes the file name and empties the slot, another leaves it |
| `LoadFiles.ConvertPath` | client/mysqlbinlog.cc:718-726 | every backslash becomes a slash, and nothing else changes |
| `LoadFiles.NamesItsFile` | client/mysqlbinlog.cc:718-726 | a printed name is the name of its file exactly if neither the directory nor the base name holds a backslash |
| `LoadFiles.Processor.ProcessExecute` | client/mysqlbinlog.cc:1201-1297 | each statement printed has a file with what it is to load, and names it with its backslashes turned |
| `LoadFiles.Run` | client/mysqlbinlog.cc:1143-1297 | over any interleaving, at the end of the run every printed statement's own file holds exactly what it loads, no two share a file, the statement names it exactly if directory and base name hold no backslash, and otherwise names a file that exists only if it did before the run |
| `LoadFiles.TurnedElsewhere` | client/mysqlbinlog.cc:718-726 | a name with its backslashes turned is outside the directory that all files of a run are in |
| `LoadFiles.BackslashInName` | client/mysqlbinlog.cc:1205-1226 | a Windows path, loaded where there are no other files: the file named by the statement does not exist |
| `LoginText.FindIsFirst` | client/mysql_config_editor.cc:1144-1153 | a search finds the first occurrence, or there is none |
| `LoginText.LocateSkips` | client/mysql_config_editor.cc:1132-1158 | a login path is located past every differently named one before it |
| `LoginText.RemovePathWorks` | client/mysql_config_editor.cc:1047-1081 | cutting a section from the text removes exactly that login path from the list |
| `LoginText.CutLine` | client/mysql_config_editor.cc:990-1029 | the search over the lines of a section finds the option's line if there is one, and cutting it drops that setting |
| `LoginText.RemoveOptionWorks` | client/mysql_config_editor.cc:976-1033 | removing an option changes that line of that login path and nothing else |
| `LoginBuffer.Buffer.Append` | client/mysql_config_editor.cc:605 | text appended to the buffer, which grows |
| `LoginBuffer.Buffer.MoveDown` | client/mysql_config_editor.cc:1073-1077 | what follows the cut moves down byte by byte, over itself |
| `LoginBuffer.Buffer.RemoveLoginPath` | client/mysql_config_editor.cc:1047-1081 | the edit in place is the edit of the text |
| `LoginBuffer.Buffer.FindOption` | client/mysql_config_editor.cc:1000-1017 | the search by remaining length finds the first line that starts with the option, within the section |
| `LoginBuffer.Buffer.RemoveOptionLine` | client/mysql_config_editor.cc:976-1033 | the edit in place is the edit of the text |
| `LoginCommands.SetWorks` | client/mysql_config_editor.cc:547-605 | set replaces a login path and moves it to the end; the other sections stay byte for byte |
| `LoginCommands.RemoveWorks` | client/mysql_config_editor.cc:946-970 | remove deletes the named options, or without any the whole login path, and leaves everything else in its place |
| `LoginCommands.CommandsWork` | client/mysql_config_editor.cc:529-667 | after any commands from an empty file the text renders distinct login paths, in the order in which they were last set, and they store what the commands say |
| `LoginCipher.WrittenIsRead` | client/mysql_config_editor.cc:1177-1299 | what is written is read back, up to the last newline and in each line up to a NUL |
| `LoginCipher.KeptExactly` | client/mysql_config_editor.cc:1195-1288 | so the text comes back exactly if it holds no NUL and is empty or ends in a newline |
| `LoginCipher.FittingFits` | client/mysql_config_editor.cc:1213-1220 | the text before the first line that does not fit can be written by itself, and is all of it exactly if every line fits |
| `LoginCipher.EncryptAndWrite` | client/mysql_config_editor.cc:1177-1247 | failure exactly if a terminated line does not fit; the file holds the records of the lines before it, or of all |
| `LoginCipher.ReadAndDecrypt` | client/mysql_config_editor.cc:1260-1299 | the plain texts of the records up to one cut short; a length over the limit or a failed decryption is an error |
| `LoginFile.FittingIsRead` | client/mysql_config_editor.cc:1177-1299 | after a write, complete or not, the file reads as the part of the text that fits |
| `LoginFile.StoredIsRead` | client/mysql_config_editor.cc:1260-1299 | a file that stores login paths is read as their text |
| `LoginFile.Edit` | client/mysql_config_editor.cc:529-667 | a command's edits of the buffer, one after the other |
| `LoginFile.Perform` | client/mysql_config_editor.cc:529-667 | file to file, a command changes the stored login paths as it says, and fails exactly if a line has become too long, leaving a file that reads as the new text up to that line |
| `ImportPool.WorkerKeeps` | client/mysqlimport.c:626-633 | every step of a worker keeps the invariant |
| `ImportPool.MainKeeps` | client/mysqlimport.c:680-731 | every step of main keeps it |
| `ImportPool.EveryRun` | client/mysqlimport.c:596-731 | in every state of every interleaving: the counter is the slots taken and within the limit, the mutex has one holder, each table goes to at most one worker |
| `ImportPool.NoUseAfterDestroy` | client/mysqlimport.c:710-721 | mutex and condition are destroyed after every worker's last unlock and not used again |
| `ImportPool.EveryTableOnce` | client/mysqlimport.c:680-705 | when main is done every table had exactly one worker or was reported |
| `ImportPool.StepsCount` | client/mysqlimport.c:596-731 | every step but a wait brings the end nearer |
| `ImportPool.WorkIsBounded` | client/mysqlimport.c:596-731 | so no run has more steps than a bound known at its start, waits aside |
| `ImportPool.CanFinish` | client/mysqlimport.c:680-731 | from every state main can still finish: no deadlock, and no wait that cannot end |
| `FieldEscape.Escaped` | client/mysqlimport.c:571-592 | at most twice as long as the option |
| `FieldEscape.FieldEscapeLoop` | client/mysqlimport.c:571-592 | one pass that keeps only the parity of backslashes escapes by pairs |
| `FieldEscape.AddLoadOption` | client/mysqlimport.c:545-563 | the clause for an option, quoted and escaped unless it is a hex constant |
| `FieldEscape.GetText` | sql/sql_lex.cc:1080-1150 | the server's scan finds the closing quote and the literal's value, or the end of the query |
| `FieldEscape.UnescapeLoop` | sql/sql_lex.cc:1009-1060 | escapes replaced and doubled quotes undoubled |
| `FieldEscape.LiteralEnds` | client/mysqlimport.c:571-592 | for every option the server's scan ends at the quote written after it |
| `FieldEscape.LiteralDenotes` | client/mysqlimport.c:571-592 | and gives the option with its escapes interpreted, lone quotes and a last lone backslash standing for themselves |
| `FieldEscape.WriteThenRead` | client/mysqlimport.c:545-592 | writer and reader in a row |
| `ErrorMessages.Parser.NumberLine` | extra/comp_err.c:511-556 | a numbering line's effect on offset, counts and section start |
| `ErrorMessages.Parser.FillGaps` | extra/comp_err.c:547-553 | placeholders for all numbers up to the given one, counted as rows or as skipped |
| `ErrorMessages.Parser.ParseLine` | extra/comp_err.c:497-621 | a line of any kind, accepted or not, as the list of entries says |
| `ErrorMessages.ParseInputFile` | extra/comp_err.c:478-631 | the whole file: entries, number of rows and rows per section agree with direct numbering, or it is refused |
| `ErrorMessages.Numbering` | extra/comp_err.c:534-553 | the number of every entry, from the first numbering line and the errors before it |
| `ErrorMessages.ConsecutiveNumbers` | extra/comp_err.c:534-553 | numbers are consecutive exactly if no error comes before the first numbering line, or it changes nothing, or no later line has an error or asks for a further number |
| `ErrorMessages.NumberedLater` | extra/comp_err.c:534-553 | nothing is numbered after the first numbering line exactly if no later line has an error or asks for a further number |
| `ErrorMessages.SectionsAddUp` | extra/comp_err.c:522-553 | section rows add up to the rows exactly if the first numbering line is not a skip after errors |
| `ErrorMessages.ErrorBeforeNumber` | extra/comp_err.c:522-538 | a file for which both fail |
| `ErrorFiles.FindMessage` | extra/comp_err.c:720-740 | the text of the language, or else of the default language |
| `ErrorFiles.RowsPerLanguage` | extra/comp_err.c:375-401 | every language gets as many rows as there are numbers in use |
| `ErrorFiles.WriteRows` | extra/comp_err.c:375-400 | the rows' texts with a NUL each, and where each starts |
| `ErrorFiles.CreateSysFile` | extra/comp_err.c:370-428 | header, section rows and row lengths, which fill exactly the space left in front of the rows |
| `ErrorFiles.RowFound` | extra/comp_err.c:415-426 | adding up the lengths stored in the file leads to a row and its text exactly if no text before it is too long for 16 bits |
| `ErrorFiles.EveryRowFound` | extra/comp_err.c:482-498 | so a reader finds every row of a file compiled from lines of less than 1000 characters |
| `ErrorFiles.LastLength` | extra/comp_err.c:418-426 | the last length stored in the file is right exactly if the size of rows and lengths is a multiple of 65536 |
| `ErrorFiles.Compile` | extra/comp_err.c:170-205 | from the lines of the text file to the message file of a language, or failure exactly if the lines are refused, name no language, hold no error or lack a text |
| `ConnectArgs.RewriteByOracle` | client/mysql.cc:5993-6092 | the rewriting in place, of any line |
| `ConnectArgs.RewriteBlanks` | client/mysql.cc:5993-6092 | on a connect string it blanks the separators and nothing else, with a tenant or slashes or without, after a word or a short command |
| `ConnectArgs.GetArgString` | client/mysql.cc:6094-6132 | the argument after the command or after the next NUL, cut off with a NUL |
| `ConnectArgs.GetArgByIndex` | client/mysql.cc:6133-6152 | the same from the word with a given index |
| `ConnectArgs.WordsFromCommand` | client/mysql.cc:6133-6151 | which words the indexes stand for, counted from the command, with the user a word of its own or not |
| `ConnectArgs.WordPlaces` | client/mysql.cc:6133-6151 | and counted from the start of the line |
| `ConnectArgs.CopyPassword` | client/mysql.cc:5655-5664 | the password without its quotes, if it fits its buffer with a NUL after it |
| `ConnectArgs.DigitsRead` | client/mysql.cc:5674-5683 | of digits the number they stand for is read, or it is out of range |
| `ConnectArgs.ConnectFields` | client/mysql.cc:5637-5690 | what is taken from every connect string: all four fields, exactly under the condition below; or the user alone; or the password for the host and the host for the port; or a refused port; or a password that overruns its copy |
| `ConnectArgs.FieldsExactly` | client/mysql.cc:5648-5690 | the four fields come back exactly if the command starts the line and has a space after it, or neither, the password has less than 128 characters and is not an empty pair of quotes, and the port has at most 32 bits; or by one coincidence |
| `ConnectArgs.ShortCommandAlone` | client/mysql.cc:6003-6005 | a short command with the user right behind it, of which only the user is taken |
| `ConnectArgs.TabBeforeCommand` | client/mysql.cc:5998-6001 | a line with a vertical tab first, of which the password is taken for the host |
| `ConnectArgs.LongPassword` | client/mysql.cc:5655-5664 | a line with a password of 128 characters, which does not fit |

## Left out

- AddLineInPlace: on a line with a client command it states only that the carried state stays sound and the accesses stay in bounds, because what commands do is not modelled.
- Batch: says nothing of a run that meets a client command, for the same reason; binary mode and Oracle mode are not modelled, nor is a failed read.
- Grow: the 32-bit width of `bufread` is not modelled, so the size limit is taken to be below 2^31.
- ReadAndDecrypt: a negative record length is taken as an error; the code passes it on to the read.
- Next: a walk over an index without words starts after a finished round or none, because an unfinished one leaves its cursors in place.
- GetArgByIndex: the words do not run out at the very end of a full buffer, where the code steps over the last NUL.
- ConnectFields: the fields of lines that are not connect strings of the given form are not stated; the line is as cut to 254 characters, and the tenant of the last connection, appended to the user afterwards, is left out.
- ParseLine: a message for a skipped error number is refused; the code hands its missing text to the format check.
- ConsecutiveNumbers: error numbers are not bounded; from 2^32 on the code's unsigned numbers start again at 0.
- Oracle mode of `add_line`, multi-byte characters, history, prompts, pager and editor.
- `init_line_buffer_from_string`, which builds a buffer from -e options.
- Flashback with database or table filters, compressed and pre-GA row events, partial row images, and statements that change tables without row events.
- Header comments and kept annotations in printed events; only what a server would execute is output here.
- Decoding, checksums and remote reading of log events; the rest of the printing of events.
- Login paths whose names hold `]` or a newline and values with a newline: the text format has no escape for them.
- The print command of the login file editor, its warnings, file permissions, key generation and AES itself.
- The fatal exit of an import worker when a query fails without --force, and what a worker does while it loads its table.
- SQL mode NO_BACKSLASH_ESCAPES in reading literals back.
- The parsing of single lines of the error text file, its header files, and the bound of 3000 rows on its position array.
- Allocation failures and write errors.
