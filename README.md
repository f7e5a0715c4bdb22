# todoli record store, modelled in Dafny

todoli is a command-line todo list kept in one text file, one entry per
line: `<DONE|NOT_DONE> <URGENT|NORMAL> <text>`. An entry has no stored
identity; its id is its position in the file. The program runs one command
per invocation: `add` appends a line, `remove`, `done` and `urgent` rebuild
the whole file with one line dropped or one token flipped, `clear` empties
the file, and running without a command lists the entries.

This project models that record store:

- `text.dfy`, module `Text`: `str::split` on one character and slice `join`.
  The central fact is `JoinSplit`: joining the pieces of a split with the
  separator gives back the string. That is why `done` and `urgent` keep the
  rest of a line byte for byte.
- `lines.dfy`, module `Lines`: the file as successive `read_line` calls see
  it. `ReadLines` cuts the contents into chunks that keep their `"\n"`; a
  last chunk may lack it. Lemmas show that the chunks concatenate back to the
  file, that re-reading written chunks gives them back, and that appending
  to a file ending in a newline keeps its lines.
- `codec.dfy`, module `Codec`: the per-line part of `add`, `list`, `done` and
  `urgent`. It covers decoding, the two token flips, what each keeps of the
  line, and the fact that each flip undoes itself on the tokens the program
  writes.
- `engine.dfy`, module `Engine`: the new file contents that `remove`, `done`
  and `urgent` produce, in closed form, with what re-reading them gives. It
  also covers `add` appending a line after all others, and restoring the file
  by toggling twice.
- `store.dfy`, module `Store`: class `TodoFile`, whose field `data` holds the
  file's bytes. Its methods `RemoveEntry`, `DoneEntry`, `UrgentEntry` and
  `ListEntries` loop over the lines with a counter, as the source does. Each
  is proved equal to the closed form. `Run` is the command dispatch of
  `main`: it computes new contents first and truncates and rewrites the file
  only after that succeeded.

Behaviour of the program worth knowing:

- Decoding fails only on a line without any space. The code indexes the
  second piece of the split without a check and panics there. The model
  reports the panic as the error `MalformedLine`. The panic ends
  the process before the file is truncated, so the file is left as it was.
- `done` never panics, because a split always has a first piece. On a line
  without a space it drops the line terminator (`Codec.FlipDoneNoSpace`).
  `urgent` on a line with exactly one space does the same
  (`Codec.FlipUrgentTwoTokens`).
- On a line with two tokens before its text, the decoded text keeps the line
  terminator, and that is the newline `list` prints. On a line with exactly
  one space the text is empty and `list` prints no newline for it
  (`Codec.DecodeTwoTokens`).
- `remove`, `done` and `urgent` copy every untouched line byte for byte; they
  never re-encode a record.

## Model

| member | source | states |
|---|---|---|
| Text.Split | src/main.rs:103 | splitting on a character always yields at least one piece |
| Text.SplitSeveral | src/main.rs:103-105 | a line splits into two or more pieces exactly when it holds a space, which is when indexing the second piece is safe |
| Text.Join | src/main.rs:112 | slice join: the pieces with the separator between neighbours; what it gives back is stated by Text.JoinSplit |
| Text.JoinSplit | src/main.rs:150 | joining the pieces of a split on ' ' with " " gives back the original string |
| Text.SplitAppend | src/main.rs:141 | a separator splits a string into the pieces before it followed by the pieces after it |
| Text.SplitNoSep | src/main.rs:174 | a string without the separator splits into itself alone |
| Text.SplitAtFirst | src/main.rs:174-182 | the first piece is everything before the first space and the other pieces are those of everything after it |
| Lines.LineLength | src/main.rs:169 | one read_line call consumes up to and including the first newline, or everything left; what it returns is one line |
| Lines.ReadLines | src/main.rs:202-207 | successive read_line calls return well-formed lines that concatenate back to exactly the file |
| Lines.ReadLinesOfConcat | src/main.rs:59-61 | re-reading contents written as well-formed lines returns those same lines |
| Lines.LineLengthOfLine | src/main.rs:136 | read_line stops exactly at the end of a terminated line, or at the end of the last one |
| Lines.ReadLinesAppend | src/main.rs:218-224 | appending to an empty file or one ending in a newline keeps its lines and adds the appended text's lines after them |
| Lines.Concat | src/main.rs:204 | the chunks written one after the other, as the loops build their result with push_str; Lines.ReadLines and Lines.ReadLinesOfConcat make it the inverse of reading |
| Lines.LineShape | src/main.rs:141-151 | a line rebuilt from a head, a space and the old tail is a line, and is terminated exactly when the tail is |
| Codec.AddedLine | src/main.rs:128 | the line add writes ends with the terminator, and holds no other newline when the text holds none; Codec.DecodeAddedLine states how it decodes |
| Codec.Decode | src/main.rs:103-112 | an entry decodes as done exactly when its line starts with "DONE "; the full decoding is stated by Codec.DecodeFields and Codec.DecodeTwoTokens |
| Codec.FlipDone | src/main.rs:174-182 | the rewritten line starts with "DONE " or "NOT_DONE ", and on a line holding a space with "NOT_DONE " exactly when the line started with "DONE "; Codec.FlipDoneFields and Codec.FlipDoneNoSpace give the whole line |
| Codec.FlipUrgent | src/main.rs:141-150 | the rewritten line keeps the first token and its second token is "URGENT" exactly when the old one was not; Codec.FlipUrgentFields and Codec.FlipUrgentTwoTokens give the whole line |
| Codec.ToggledDone | src/main.rs:176-180 | the token done writes: "NOT_DONE" for "DONE", "DONE" for anything else; used by Codec.FlipDone, and undone by itself on those two tokens (Codec.FlipDoneTwice) |
| Codec.ToggledUrgent | src/main.rs:144-148 | the token urgent writes: "NORMAL" for "URGENT", "URGENT" for anything else; used by Codec.FlipUrgent, and undone by itself on those two tokens (Codec.FlipUrgentTwice) |
| Codec.FirstTokenIs | src/main.rs:104 | the first piece of a line holding a space is a given token exactly when the line starts with that token and a space |
| Codec.DecodeFields | src/main.rs:103-112 | a line "t0 t1 rest" decodes as done = (t0 == "DONE"), urgent = (t1 == "URGENT"), text = rest |
| Codec.DecodeTwoTokens | src/main.rs:103-112 | a line with exactly one space decodes with empty text, and its second token keeps the terminator |
| Codec.DecodeAddedLine | src/main.rs:128 | a line written by add decodes as not done, not urgent, with the added text plus the line terminator |
| Codec.FlipDoneFields | src/main.rs:174-183 | done turns a first token "DONE" into "NOT_DONE" and any other into "DONE", and keeps everything after the first space, terminator included |
| Codec.FlipDoneNoSpace | src/main.rs:174-183 | on a line without a space, done yields just a token and a space: the terminator is lost |
| Codec.FlipUrgentFields | src/main.rs:141-151 | urgent keeps the first token, turns a second token "URGENT" into "NORMAL" and any other into "URGENT", and keeps everything after the second space |
| Codec.FlipUrgentTwoTokens | src/main.rs:141-151 | on a line with exactly one space, urgent replaces the second token together with the terminator |
| Codec.FlipDoneDecode | src/main.rs:174-183 | toggling done flips the decoded done flag and leaves urgent and text unchanged |
| Codec.FlipUrgentDecode | src/main.rs:141-151 | toggling urgent flips the decoded urgent flag and leaves done and text unchanged |
| Codec.FlipDoneTwice | src/main.rs:176-182 | when the line holds a space and its first token is DONE or NOT_DONE, toggling done twice restores the line byte for byte |
| Codec.FlipUrgentTwice | src/main.rs:144-150 | when the second token is URGENT or NORMAL and text follows, toggling urgent twice restores the line byte for byte |
| Engine.RemovedContents | src/main.rs:197-208 | re-reading the contents remove computes gives every line except line id, in order, one line fewer |
| Engine.DoneContents | src/main.rs:169-187 | re-reading the contents done computes gives the same lines with only line id rewritten |
| Engine.UrgentContents | src/main.rs:136-155 | re-reading the contents urgent computes gives the same lines with only line id rewritten |
| Engine.WellFormedRemove | src/main.rs:202-207 | dropping one line keeps the chunks well formed |
| Engine.FlipDoneKeepsLine | src/main.rs:174-183 | done on a line with a space yields one line, terminated exactly when the old one was |
| Engine.FlipUrgentKeepsLine | src/main.rs:141-151 | urgent on a line with two tokens before its text yields one line, terminated exactly when the old one was |
| Engine.AddAppendsLine | src/main.rs:127-130 | add, on a file that is empty or ends in a newline and for a text without a newline, keeps every line and puts the new line last with the next id; the new line decodes as not done, not urgent, with the text followed by the terminator |
| Engine.DoneTwice | src/main.rs:176-182 | running done twice on the same id restores the file byte for byte when line id holds a space and its first token is DONE or NOT_DONE |
| Engine.UrgentTwice | src/main.rs:144-150 | running urgent twice on the same id restores the file byte for byte when line id has two tokens before its text and its second token is URGENT or NORMAL |
| Store.TodoFile.constructor | src/main.rs:218-224 | opening the file keeps its contents; a new file is empty |
| Store.TodoFile.Truncate | src/main.rs:67 | set_len(0) leaves the file empty |
| Store.TodoFile.WriteAll | src/main.rs:61 | writing to the file opened in append mode adds the bytes after its contents |
| Store.TodoFile.AddEntry | src/main.rs:127-130 | add appends exactly "NOT_DONE NORMAL " + text + "\n" after all existing contents |
| Store.TodoFile.RemoveEntry | src/main.rs:197-216 | the copying loop yields the removed contents when id is below the line count, and the Invalid ID error exactly when it is not |
| Store.TodoFile.DoneEntry | src/main.rs:164-195 | the copying loop yields the done contents when id is below the line count, and the Invalid ID error exactly when it is not |
| Store.TodoFile.UrgentEntry | src/main.rs:131-163 | the copying loop yields the urgent contents; Invalid ID exactly when id is at or beyond the line count; the panic when line id holds no space |
| Store.TodoFile.ListEntries | src/main.rs:98-125 | every line is decoded in file order with ids 0, 1, 2, ...; the panic exactly when some line holds no space |
| Store.TodoFile.Run | src/main.rs:42-93 | each command's effect on the file; on every error and every missing argument the file is unchanged, because new contents are computed before set_len(0) |

## Left out

- Argument parsing with clap (`Args`, `Action`, src/main.rs:6-28): the model takes the parsed command as an `Option<Action>` value.
- Resolving the default path through the home directory, and the `"$HOME/.todo"` placeholder check (src/main.rs:32-36): an environment lookup. The file is given to `TodoFile`'s constructor as its contents.
- Colours, check-box glyphs and printing in `list`, and the success and usage messages in `main`: presentation. `ListEntries` returns the `(id, record)` pairs instead, and `Run` returns an `Outcome`.
- I/O failures of opening, reading, `set_len` and `write_all`, and the panic when the file cannot be opened: real file I/O is replaced by the `data` field.
- A failed `writeln!` in `add`, which `main` only reports: real file I/O.
- Output printed by `list` before it panics on a malformed line: the model returns only the error.
- Interruption between `set_len(0)` and `write_all`, and the lack of locking between processes: concurrency and durability concerns.
- Integer widths: ids and the line counter are `u32` in the source, and `list`'s counter is `i32`; they are unbounded here; they could only overflow with 2^31 lines or more.
- Text is a sequence of characters, not UTF-8 bytes. Splitting on ' ' and cutting at '\n' give the same lines either way.
- Engine.DoneContents: re-reading is described only when line id holds a space; without one the rewritten line loses its terminator (see Codec.FlipDoneNoSpace) and merges with the next line.
- Engine.UrgentContents: re-reading is described only when line id has two tokens before its text; with exactly one space the rewritten line loses its terminator (see Codec.FlipUrgentTwoTokens).
