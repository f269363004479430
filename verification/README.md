# Verification of the Lua bindings for Zephyr

This project models the parts of the Lua-on-Zephyr integration that move data between worlds:
between C structs and Lua tables, between threads over zbus, between a keyboard and a file,
and between a script and the C or Lua source it is embedded in. Each imperative piece of the
source is an imperative Dafny method over the same kind of state (a Lua stack, byte arrays, a
heap of raw blocks, FIFOs), proved against a pure specification; the laws are then proved
about that specification, for all inputs.

**The descriptor codec.** `Descriptor` holds field descriptors and their well-formedness,
`Lens` the pure reading `Get` (bytes to table) and `Put` (table onto bytes). `Codec` is
`lua_msg_descr_to_table` and `lua_msg_descr_from_table` as they run: loops over the field
array that push and pop the stack of `LuaState` and write into a byte array, with the nested
recursion by absolute stack index. Lua tables are references into a heap, so they may be
shared or cyclic, and indexing a channel, an observer or a string goes to its methods, as
their metatables make it; `TableView` says how a Lua value is seen through a descriptor, and
`StoredBytes` what encoding a Lua value does to each byte, without that view.
`Reading` is decoding as the code does it, a string up to the first NUL wherever that is; it
agrees with `Get` while strings are terminated within their fields. Integers are
two's complement, little-endian; `w` is the width of `lua_Integer` in bytes (the build's
`LUA_32BITS` makes it 4) and every law holds for each w. `LensLaws`, `MergeLaws`, `FrameLaws`
and `ScratchLaws` hold the laws. `PbSchema` is the X-macro translation from nanopb messages to
descriptors, proved against a direct reading of the struct by its protobuf types, and
`PbWidths` says exactly where the narrow members of a descriptor bite.

**zbus.** `Bus` (one cell per channel, one FIFO per subscriber) and `SysHeap` (a set of live
blocks) are contracts for the kernel; every outcome the kernel decides is left open, and both record
every call made into them. `Zbus` is `pub`, `read` and `wait_msg` with their scratch blocks,
and the maximum computed at boot: which kernel calls each makes, with which message and
timeout, and that the code it returns is the recorded one. `ZbusRuns` follows sequences of
calls.

**The handshake.** `Handshake` is the producer/consumer sample as a labelled transition system:
the two threads interleave freely, any publish may fail or report an error it did not have,
and any wait may time out. `Run` gives the state after any sequence of actions; besides what
every run keeps, it is proved which ends can be reached.

**Text.** `FsShell` (line editor, `write`, `cat`), `CLiteral`, `Template` and `TemplateFiles` (the
header generator and its two templates, read back by a model of the C compiler's translation
phases), `PrintString` (the
Lua escaper, read back by a model of the Lua lexer), `Naming` (the two greedy regex passes)
and `Require` (the preload-only `require`).

## Results that differ from what one might expect

- Reading a struct and writing it back is not always the identity. `LensLaws.GetPutIff` gives
  the exact condition: every wide integer is the sign extension of its low w bytes, every bool
  is 0 or 1, every string buffer is zero after its terminator.
- `chan_pub` never clears its scratch block. For every content of the block: all strings of
  the message are terminated if and only if the table has every described string
  (`ScratchLaws.TerminatedIff`), and what a reader decodes is decided by the table alone if and
  only if the table has every described leaf (`ScratchLaws.TableDecidesIff`). A partial table
  publishes whatever the block held before.
- A Lua error raised while `chan_pub` converts its table leaks the scratch block. `Zbus.ChanPub`
  proves that this happens if and only if a block was allocated and some described nested key
  holds a value that cannot be indexed, and that then exactly one block more is live.
- A channel, an observer or, with the string library loaded, a string can be indexed. In place
  of a nested table it raises nothing and stores nothing: `ZbusRuns.ChannelAsOffset` is a table
  of the sample's shape that conforms and yet leaves the published offset to the scratch block.
- After a failed `chan_read` the annotations promise nil (`src/luaz_apis.lua:16`); the code
  decodes the scratch block, whatever it holds. The model follows the code (`Zbus.ChanRead`):
  nil comes only without a descriptor or without memory, and a string that meets no NUL before
  its block ends is `Undefined`.
- A descriptor has 16 bits for the offset and 8 for the size. A member is encoded as it should
  be, for every value and every struct, if and only if its offset is below 65536 and, for a
  string, its buffer smaller than 256 bytes, or it has nothing to encode (`PbWidths.WidthIff`).
  At a multiple of 256 the size becomes 0, the copy has no limit and the terminator lands
  before the buffer; the encoder stays inside the member if and only if the size is no such
  multiple (`PbWidths.StringInsideIff`, with the 256-byte buffer in `PbWidths.StringOf256`), and
  the pure encoder is undefined there. Decoding never looks at the size of a string and is
  right for every buffer (`PbWidths.GeneratedRead`).
- The producer's loop can break off with any number of acknowledgements from 0 to 9, also when
  nothing was lost and the acknowledgement is already waiting (`Handshake.GivesUp`); it cannot
  with ten (`Handshake.BrokenIff`).
- The sample's random numbers follow their formula, for the seeds of its loop, if and only if
  the 32-bit product does not overflow (`Handshake.ProducerSeedIff`); it does for the very
  first y coordinate (`Handshake.FirstYWraps`).
- The generated C literal is the script if and only if the script has no backslash
  (`CLiteral.EmbedIff`). The template's opening comment names the placeholder too, so the
  script is also copied into a comment, which ends too early exactly when the script contains
  a star followed by a slash (`CLiteral.CommentIff`).
- A typed script is in the file verbatim if and only if every line is shorter than 255
  characters, has no erasing or terminating key and is no lone dot (`FsShell.TypedScriptIff`); a
  line of exactly 255 characters is followed by a blank line nobody typed
  (`FsShell.FullLineWritten`).
- `lua_fs cat` prints a file unchanged if and only if the file has no NUL byte
  (`FsShell.PrintedIff`).
- A loader that was started before is started again by a later `require` if and only if it
  returned false or its module cannot be had (`Require.RequireAgain`). So `pcall(require, "a")`
  twice, where the loader of "a" requires a missing module, runs that loader twice
  (`Require.MissingTwice`).

## Model

| member | source | states |
|---|---|---|
| Codec.ToTable | src/luaz_msg_descr.c:26-103 | decoding pushes exactly one value, a fresh table that holds the decoded struct at every level, strings read up to their first NUL; everything below it and every older table is unchanged; the stack grows, at its highest, by exactly the nesting depth of the values and one |
| Codec.FromTable | src/luaz_msg_descr.c:118-207 | encoding leaves the Lua stack and heap as they were, overlays the table at the absolute index onto the struct, writes nothing outside the span even when it fails, fails exactly when a described nested key holds a value that cannot be indexed (neither a table nor a value with methods), and grows the stack by at most the depth; every byte afterwards is as `StoredBytes.Encoded` tells by the kind of the Lua value: a bool field 0 for false and 1 for any other value, an integer field a number's two's complement (of a string the number Lua reads in it, else 0), a string buffer a string or a number's text |
| StoredBytes.ViewEncoded | src/luaz_msg_descr.c:121-206 | encoding the typed view of a Lua value leaves exactly the bytes that the kinds of the values demand, at every level; nil and absent keys leave a field alone, and bytes of no field stay |
| StoredBytes.EncodedOnce | src/luaz_msg_descr.c:121-206 | these demands leave no choice: the memory before and the Lua value decide every byte |
| StoredBytes.IndexKinds | src/luaz_zbus.c:344-361 | tables are indexed directly, channels, observers and strings through their method tables if these are loaded, and indexing any other value raises an error |
| Codec.DecodeKey | src/luaz_msg_descr.c:31-102 | one round of the decoding loop adds one key to the table on top and keeps all earlier keys |
| Codec.EncodeKey | src/luaz_msg_descr.c:121-206 | one round of the encoding loop stores one present key, skips nil, and gives the stack back |
| Codec.EncodeStep | src/luaz_msg_descr.c:121-206 | storing one key in place, seen from the whole memory, is one step of the pure encoding of the struct |
| Codec.LoadInteger | src/luaz_msg_descr.c:36-75 | reading an integer field of any size gives the field's two's-complement value narrowed to lua_Integer, 0 for unsupported sizes |
| Codec.ReadCString | src/luaz_msg_descr.c:90-92 | reading a string buffer stops at the first NUL |
| Codec.StoreString | src/luaz_msg_descr.c:184-191 | storing a string cuts it at its first NUL and at size - 1 and pads the whole buffer with zeros |
| Lens.PutAt | src/luaz_msg_descr.c:121-123 | encoding acts on each field by itself: its bytes afterwards depend only on its own key and its own bytes before |
| Lens.GetAt | src/luaz_msg_descr.c:31-33 | decoding reads each field by itself |
| Lens.GetLocal | src/luaz_msg_descr.c:26-103 | decoding does not depend on any byte at or beyond the descriptor's span |
| Lens.PutLocal | src/luaz_msg_descr.c:118-207 | encoding neither reads nor writes at or beyond the descriptor's span |
| Reading.ReadAt | src/luaz_msg_descr.c:31-33 | with distinct sibling names, each key of the table read is its own field read from memory |
| Reading.TerminatedRead | src/luaz_msg_descr.c:26-103 | reading memory, strings up to the first NUL, is decoding field by field when every string is terminated within its field |
| Reading.TerminatedFieldIff | src/luaz_msg_descr.c:90-92 | a string buffer counts as terminated if and only if the string read from it does not depend on the bytes after it |
| Reading.ReadPrefix | src/luaz_zbus.c:249-273 | what can be read from a message does not depend on the bytes after it in a larger block |
| LensLaws.PutGet | src/luaz_msg_descr.c:26-207 | put-get: decoding after encoding any typed, possibly partial, nested table gives the old contents recursively overlaid with the table, every leaf wrapped, cut or normalised as its field stores it |
| LensLaws.GetPutIff | src/luaz_msg_descr.c:26-207 | get-put: writing back what was read changes nothing if and only if the memory is canonical |
| Bytes.SqueezeIff | src/luaz_msg_descr.c:36-75 | an integer survives the trip through lua_Integer if and only if its bytes are the sign extension of the low w bytes |
| MergeLaws.NarrowIntIdentity | CMakeLists.txt:13 | integer fields no wider than lua_Integer, uint32 from 2^31 on included, survive the round trip unchanged |
| MergeLaws.CanonicaliseOnce | src/luaz_msg_descr.c:26-207 | for memory with terminated strings, writing back what was read is idempotent: once done, memory is canonical |
| MergeLaws.PutPut | src/luaz_msg_descr.c:121-206 | encoding two partial tables one after the other is encoding their recursive merge, the second winning at leaves |
| MergeLaws.PutPutFull | src/luaz_msg_descr.c:121-206 | a complete table erases everything an earlier table wrote |
| MergeLaws.PutGetFull | src/luaz_msg_descr.c:26-207 | decoding after encoding a complete table gives that table normalised, whatever the memory held |
| MergeLaws.PutTerminated | src/luaz_msg_descr.c:184-191 | encoding keeps every described string terminated, and a complete table terminates all of them |
| FrameLaws.Frame | src/luaz_msg_descr.c:121-206 | a byte outside the leaves whose keys are present keeps its value; a byte inside one is decided by the table alone |
| FrameLaws.PermutationReorders | src/luaz_msg_descr.c:31-33 | every permutation of a well-formed array is a reordering in the sense of the next two rows |
| FrameLaws.ReorderGet | src/luaz_msg_descr.c:31-33 | permuting the field array at any level does not change the decoded table |
| FrameLaws.ReorderPut | src/luaz_msg_descr.c:121-123 | permuting the field array at any level does not change the encoded memory |
| TableView.KeylessObject | src/luaz_zbus.c:344-361 | a value with methods but none of the described keys, in place of a nested table, raises nothing, is seen as an empty table and leaves the nested bytes alone |
| TableView.RepView | src/luaz_msg_descr.c:97-101 | a table laid out by the decoder is seen by the encoder as the same typed table, at every level |
| PbSchema.GeneratedWf | include/luaz_msg_descr_pb.h:69-118 | leaf-first messages laid out as C structs whose offsets and sizes fit the descriptor give well-formed descriptors inside their structs |
| PbSchema.GeneratedGet | include/luaz_msg_descr_pb.h:45-118 | interpreting the generated descriptor decodes the struct by its protobuf types |
| PbSchema.OnesRead | include/luaz_msg_descr_pb.h:45-60 | a member with all bits set reads through its generated field as -1 for the signed types and ENUM, as the largest number (narrowed to lua_Integer) for the unsigned ones, as true for BOOL |
| PbSchema.GeneratedTyped | include/luaz_msg_descr_pb.h:45-60 | the generated descriptor accepts a table if and only if the table has the message's protobuf types and gives no string to a buffer whose size is a multiple of 256 |
| PbSchema.GeneratedPut | include/luaz_msg_descr_pb.h:45-118 | interpreting the generated descriptor encodes the struct by its protobuf types |
| PbWidths.WidthIff | include/luaz_msg_descr.h:36-43 | a member of any type, around messages that fit, is encoded through its generated descriptor as by its protobuf type, for every value and every struct, if and only if its offset is below 65536 and its string buffer smaller than 256 bytes, or it has no value to encode |
| PbWidths.GeneratedRead | include/luaz_msg_descr_pb.h:45-118 | interpreting the generated descriptor reads every struct with terminated strings by its protobuf types, whatever the size of its string buffers |
| PbWidths.StringInsideIff | src/luaz_msg_descr.c:184-191 | encoding a string member writes inside its buffer only, if and only if the buffer's size is no multiple of 256; exactly then the encoder is defined |
| PbWidths.StringOf256 | src/luaz_msg_descr.c:188-189 | for a 256-byte buffer the copy's count is the greatest 32-bit size and the store leaves the buffer |
| PbSchema.SampleFlagUntouched | samples/producer_consumer/proto/channels.proto:22-25 | no table whatsoever changes the undescribed has_offset flag of the sample's sensor configuration |
| SysHeap.RawHeap.Allocator | src/luaz_utils.c:38-55 | the allocator frees, allocates, resizes in place or moves exactly one block and keeps its common prefix; a failed reallocation changes nothing |
| Zbus.TableToMsgStruct | src/luaz_zbus.c:117-126 | converting for a channel yields its message size, or 0 without a descriptor, and overlays the block with the table |
| Zbus.MsgStructToTable | src/luaz_zbus.c:95-105 | converting back pushes the table read from the block, or nil without a descriptor |
| Zbus.ArgumentKinds | src/luaz_zbus.c:129-247 | numbers and numerals are accepted as timeouts and nothing else is; pub takes a channel and a table; only wait_msg allows further arguments; a 32-bit timeout is passed on as it is |
| Zbus.ChanPub | src/luaz_zbus.c:129-163 | argument errors touch nothing; -ENOMEM without a call into zbus exactly when sys_heap refused the one block of the message's size; with a block and a readable table there is exactly one publish, of the block overlaid with the table, with the given timeout, its code is the one result, and the block is freed once; on 0 the channel holds that message, and whatever the code each FIFO gained it or nothing; without a descriptor nothing is published and the result is -EINVAL; an unreadable table raises, publishes nothing and leaves one block more |
| Zbus.ChanRead | src/luaz_zbus.c:166-196 | either the one block was refused, and the results are -ENOMEM and nil, or there is exactly one read of this channel with the given timeout, its code is the first result, the second is what the block decodes to (the cell on 0, nil without a descriptor), and the block is freed once; it is undefined only if some string of the block meets no NUL in it |
| Zbus.Library.Init | src/luaz_zbus.c:59-75 | after the boot iteration the static is the maximum message size over all channels |
| Zbus.Library.SubWaitMsg | src/luaz_zbus.c:242-278 | after the boot iteration every delivered message fits the scratch block; either that block was refused, and the results are -ENOMEM, nil and nil, or there is exactly one wait on this observer with the given timeout, its code is the first result and the block is freed once; on 0 the others are the channel and a table read from a block that starts with the oldest message, which has left the FIFO; it is undefined only if some string of that message meets no NUL in it |
| Zbus.ReadFromMessage | src/luaz_zbus.c:249-273 | when every string meets a NUL within the message, that table is the message and the rest of the block does not matter |
| ZbusRuns.PublishRead | src/luaz_zbus.c:144-195 | a message encoded from a complete table decodes to the normalised table and has terminated strings, whatever the scratch block held |
| ZbusRuns.PublishComplete | samples/producer_consumer/src/producer.lua:58 | publishing a complete table calls zbus once, with a message that decodes to the table normalised, whatever code comes back, or was refused its scratch block |
| ZbusRuns.PublishThenRead | samples/producer_consumer/src/producer.lua:18-30 | publishing a complete table and reading the channel back, with no publisher in between, returns the table normalised and frees both scratch blocks; after a successful publish a successful read is never undefined; each of the two calls zbus once or was refused its scratch block |
| ZbusRuns.WaitTimes | src/luaz_zbus.c:242-278 | over any number of waits the n-th success yields the n-th message of the FIFO; every attempt is one wait on that observer or one refused scratch block, and it stops early only at the n-th success or an undefined message |
| ZbusRuns.PublishThenWait | samples/producer_consumer/src/consumer.c:27-35 | publishing a complete table to a subscriber with any number of messages waiting: once those are received the next successful wait yields that channel and the table normalised, whatever error the publish reported, and all scratch blocks are freed |
| ZbusRuns.KeylessExposes | src/luaz_zbus.c:117-160 | a table with such a value in place of a nested table that has a leaf with bytes at any depth conforms, but its message depends on the scratch block |
| ZbusRuns.ChannelAsOffset | src/luaz_zbus.c:344-353 | the concrete table with a channel as its offset |
| ZbusRuns.RunCalls | src/luaz_zbus.c:129-278 | over any sequence of pub, read and wait_msg calls that return normally the set of live raw blocks is the same before and after; a sequence that stops at a raised error leaves at most the one block of that pub |
| ScratchLaws.TerminatedIff | src/luaz_zbus.c:144-160 | every string of the message is terminated, for every content of the scratch block, if and only if the table has every described string |
| ScratchLaws.TableDecidesIff | src/luaz_zbus.c:144-160 | for every two contents of the scratch block the messages are terminated and decode alike, if and only if the table has every described leaf (integers of unsupported size, which have no bytes, aside) |
| Handshake.StepInv | samples/producer_consumer/src/consumer.c:17-36 | every action of either thread keeps the squeeze invariant on rounds, FIFOs and counters |
| Handshake.HeadAck | samples/producer_consumer/src/producer.lua:58-73 | the acknowledgement at the head of the FIFO carries the number of acknowledgements received, itself included |
| Handshake.EveryRun | samples/producer_consumer/src/producer.lua:45-77 | in every run the k-th acknowledgement received carries count k, acks received <= acks sent <= count <= publishes <= 10, and the rounds acknowledged were consumed in order |
| Handshake.NormalEnd | samples/producer_consumer/src/producer.lua:45-77 | the loop ends normally only after exactly ten rounds, all consumed and acknowledged in order, both FIFOs empty, nothing lost |
| Handshake.LosslessFinish | samples/producer_consumer/src/consumer.c:27-35 | without loss and timeouts no run gets stuck or runs on: it is finished if and only if 51 actions were taken, and before that another action is possible |
| Handshake.LosslessExtends | samples/producer_consumer/src/producer.lua:45-77 | every run without loss extends, without loss, to one of 51 actions that ends the loop normally |
| Handshake.FullRun | samples/producer_consumer/src/producer.lua:45-77 | ten full rounds and one more test of the loop condition end the loop normally |
| Handshake.LostSample | samples/producer_consumer/src/producer.lua:58-68 | for every n from 0 to 9 and every code of the publish, a run that loses the sample after n full rounds ends the loop with exactly n acknowledgements received |
| Handshake.LostAck | samples/producer_consumer/src/producer.lua:58-68 | the same with the sample counted and its acknowledgement lost |
| Handshake.GivesUp | samples/producer_consumer/src/producer.lua:64-68 | the same with nothing lost and the acknowledgement already waiting when the wait gives up |
| Handshake.BrokenIff | samples/producer_consumer/src/producer.lua:45-77 | some run breaks off with n acknowledgements received if and only if n is below ten |
| Handshake.EveryRunEnds | samples/producer_consumer/src/producer.lua:45-77 | every run whose loop has not ended extends, by at most three actions, to one whose loop has |
| Handshake.GetRandomIff | samples/producer_consumer/src/producer.lua:35-40 | with 32-bit integers the generator returns what its formula says if and only if the number of wrap-arounds is a multiple of 3801 |
| Handshake.ProducerSeedIff | samples/producer_consumer/src/producer.lua:51-53 | for every seed of the main loop it does so if and only if there is no overflow |
| Handshake.FirstYWraps | samples/producer_consumer/src/producer.lua:51-53 | for the first y coordinate the product wraps to a negative number and the formula is missed |
| FsShell.Transport.ReadLine | src/luaz_fs_shell.c:142-180 | the line read is the edit of the keys, zero-filled to the end of the buffer and never longer than len - 1 |
| FsShell.ScanIsEdit | src/luaz_fs_shell.c:142-180 | a finished line is the push/pop edit of the keys up to the first terminator or to the moment the line is full |
| FsShell.EditKey | src/luaz_fs_shell.c:155-178 | backspace and delete take the last character off the line and do nothing on an empty one; every other key is appended |
| FsShell.EditErase | src/luaz_fs_shell.c:155-162 | a character and a backspace or delete right after it leave no trace anywhere in the keys, nor does an eraser at the start |
| FsShell.ReadErased | src/luaz_fs_shell.c:142-180 | while the line has room, typing a character and erasing it changes neither the buffer, the outcome nor the keys that are left |
| FsShell.Keyboard | src/luaz_fs_shell.c:142-247 | a concrete sequence of keys with both erasers, both line ends and the lone dot, and the file it makes |
| FsShell.TypedLineIff | src/luaz_fs_shell.c:142-180 | typing a text and the newline key gives exactly that line if and only if it is shorter than the capacity and has no erasing or terminating character |
| FsShell.CmdWrite | src/luaz_fs_shell.c:183-247 | writing ends unfinished, cancelled (file removed) or complete exactly as the keys say; with successful writes the file is the newline-terminated segments before the first lone dot |
| FsShell.TypedScriptIff | src/luaz_fs_shell.c:219-242 | a script, typed line by line and closed with a lone dot, is in the file verbatim if and only if every line is shorter than 255 characters, has no erasing or terminating key and is no lone dot |
| FsShell.FullLineWritten | src/luaz_fs_shell.c:157-178 | a line of exactly 255 characters gets a second newline |
| FsShell.CmdCat | src/luaz_fs_shell.c:121-131 | what cat prints in 127-byte chunks is the file if and only if it has no NUL byte |
| FsShell.PrintedIff | src/luaz_fs_shell.c:121-131 | the same for every chunk size |
| CLiteral.SplitJoined | scripts/luaz_gen.py:32 | lines of printable text joined by line ends split into just these lines, with or without a line end at the end |
| CLiteral.BoundaryIff | scripts/luaz_gen.py:32 | a character separates two lines if and only if it is one of the ten line boundaries of splitlines |
| CLiteral.LuaToCString | scripts/luaz_gen.py:26-37 | the text is the joined escaped lines; compiled as C it is the script's lines, each with one leading space and one newline, if and only if the script has no backslash |
| CLiteral.SpliceBody | scripts/luaz_gen.py:31-37 | after line splicing (section 5.1.1.2 of ISO/IEC 9899:2011) the literal body is the character-wise encoding of the lines |
| CLiteral.DecodeIff | scripts/luaz_gen.py:33 | reading the escapes (section 6.4.4.4) gives the text back if and only if it has no backslash |
| CLiteral.EmbedIff | templates/lua_template.h.in:14 | the whole literal is well-formed and means the lines if and only if they have no backslash |
| CLiteral.CommentIff | templates/lua_template.h.in:1-8 | the template's comment, which the script is copied into as well, ends in its place if and only if the script has no comment terminator |
| Template.ReplaceIsFill | scripts/luaz_gen.py:92-101 | replacing a placeholder textually fills exactly the template's holes of that name, whatever marks the value has |
| Template.FillThenFill | scripts/luaz_gen.py:92-101 | filling placeholders one after the other is filling them together |
| Template.GenerateSource | scripts/luaz_gen.py:92-97 | in source mode the ordered replacements equal one simultaneous substitution when the name has no '@', even if the script has some |
| Template.GenerateBytecode | scripts/luaz_gen.py:92-101 | the same in bytecode mode, with the byte list and the length |
| TemplateFiles.HeaderClean | templates/lua_template.h.in:1-18 | the whole shipped template, its comment with two placeholders and two stray marks included, meets the condition the replacements need |
| TemplateFiles.BytecodeHeaderClean | templates/lua_bytecode_template.h.in:1-22 | the whole shipped bytecode template, its comment with three placeholders included, meets the condition the replacements need |
| TemplateFiles.GenerateHeader | templates/lua_template.h.in:1-18 | source mode on the shipped template, given character for character, yields the header with the name and the literal in every place, its comment included |
| TemplateFiles.GenerateBytecodeHeader | templates/lua_bytecode_template.h.in:1-22 | bytecode mode on the shipped template yields the header with the name, a list that parses to the bytecode and a numeral for its length in every place |
| Template.HexRoundTrip | scripts/luaz_gen.py:58-60 | parsing the emitted comma-separated hexadecimal list gives the bytecode back for every length |
| Template.LengthRoundTrip | scripts/luaz_gen.py:58-60 | the emitted length is a numeral for the array's length |
| PrintString.ReadPrinted | host_tools/luac.c:221-264 | reading the printed literal by section 3.1 of the Lua 5.4 Reference Manual gives the original bytes for every byte string, also when an escape is followed by a digit |
| PrintString.PrintInjective | host_tools/luac.c:221-264 | two different byte strings never print alike |
| PrintString.VerbatimIff | host_tools/luac.c:221-264 | a text prints as it is if and only if it is printable and has neither a quote nor a backslash |
| Naming.Pass1Local | scripts/luaz_nanopb_custom_naming.py:38-43 | the first greedy pass, backtracking included, inserts an underscore exactly where a scan with one character of memory and two of lookahead does |
| Naming.Pass2Local | scripts/luaz_nanopb_custom_naming.py:38-43 | the second pass inserts an underscore exactly between a lower-case letter or digit and a capital |
| Naming.UnderscoreIsLocal | scripts/luaz_nanopb_custom_naming.py:38-43 | both passes, the hyphen replacement and lower-casing together are one local rule per character |
| Naming.UnderscoreIdempotent | scripts/luaz_nanopb_custom_naming.py:38-43 | renaming a renamed word changes nothing |
| Naming.UnderscoreLetters | scripts/luaz_nanopb_custom_naming.py:38-43 | apart from underscores and hyphens a name keeps its characters, in order, each capital as the small letter at its place in the alphabet |
| Naming.SampleNames | samples/producer_consumer/proto/channels.proto:5 | the sample's first message name, and a name that needs both passes |
| Require.Registry.Require | src/luaz_utils.c:220-259 | over any acyclic preload graph it terminates, succeeds exactly when the module can be had, never changes a cached value and finishes dependencies before dependents; over any sequence of calls a loader is started twice only if it returns false or its module cannot be had; a preloaded module that is not cached always has its loader started, exactly once a call |
| Require.ScriptRequire | src/luaz_utils.c:220-259 | called with no loader running it leaves none running, and starts a loader exactly when the module is preloaded and not cached; the value is the one the module had from the start, else its loader's own result, true for nil |
| Require.RequireTwo | src/luaz_utils.c:248-257 | two modules whose loaders return different values other than nil yield these values, which differ |
| Require.RequireAgain | src/luaz_utils.c:228-256 | requiring, at any later time, a module whose loader has been started starts it again if and only if it returned false or the module cannot be had; the outcome is the same every time |
| Require.RequireTwice | src/luaz_utils.c:228-256 | of two calls for a preloaded module the first leaves its loader started, the second starts it again if and only if it returned false or the module cannot be had |
| Require.MissingTwice | src/luaz_utils.c:238-241 | the concrete loader that requires a missing module is started by each of two calls |
| Require.StoreKeeps | src/luaz_utils.c:238-256 | storing a loader's result, true for nil, keeps the cache invariant once its dependencies are settled |

## Left out

- Codec.ToTable: `LUA_MSG_TYPE_NUMBER` fields and nanopb's float and double members are not modelled; they are copies of a rounding conversion that add no structure.
- Codec.FromTable: `LUA_MSG_TYPE_STRING` fields store a pointer into memory owned by Lua, whose lifetime the repository does not decide; they are not modelled.
- Codec.FromTable: Lua's conversions between numbers and strings are a parameter (`Conversions`). The metatables of channels, observers and strings are modelled as tables of methods; a metatable that a script puts on a table of its own is not, so indexing a table only looks at the table itself.
- Codec.FromTable: after a raised Lua error only the outcome, the untouched outside bytes and the heap of tables are specified; out-of-memory inside the Lua API is not modelled.
- Lens.GetAt: byte order is little-endian; another order is the same lens over permuted bytes. `lua_Integer` is a parameter of w bytes.
- Zbus.ChanRead: what a fresh scratch block holds is arbitrary, so the table after a failed read is only specified as what that block decodes to.
- Zbus.Library.SubWaitMsg: when a string of the message meets no NUL in it, the table depends on bytes the block held before; the model only says that it was read from some such block.
- Zbus.ChanPub: timeouts are checked as arguments, cut to 32 bits and handed to the bus, where they have no effect as there is no clock; the channel and observer lookups (`find_obs`, the declare functions) only appear as the precondition that userdata names existing channels and observers.
- SysHeap.RawHeap.Allocator: sys_heap's own bookkeeping, alignment and out-of-range requests are not modelled.
- PbSchema.GeneratedWf: offsets and sizes are inputs, as the C compiler chooses them; 16-bit and 8-bit descriptor members are modelled by their wrap-around.
- Handshake.EveryRun: sleeping, thread priorities and the contents of the samples are not modelled; a FIFO delivers in order and each publish at most once.
- FsShell.CmdWrite: opening, truncating and path building are not modelled; the results of writes are ignored as in the code, so the file's contents are promised only if every write was complete. Echoed output is not modelled.
- FsShell.CmdCat: a read error ends the loop like the end of the file and is not modelled separately.
- FsShell.Transport.ReadLine: blocking on an exhausted key stream is an outcome (`waiting`), as the model has no clock.
- CLiteral.LuaToCString: trigraphs and universal character names are not modelled; the text is ASCII plus the line boundaries of Python's `splitlines`.
- PrintString.ReadPrinted: the lexer model has the decimal and single-character escapes that the printer can emit; `\x`, `\z` and `\u` are not part of it.
- Naming.UnderscoreIsLocal: ASCII words only.
- Require.Registry.Require: a loader is its list of dependencies and one constant result, and does not catch the errors of its dependencies; cyclic preload graphs, on which the source recurses without bound, are excluded.
- The rest of `src/luaz_fs.c`, `src/luaz_repl.c` and the other shell commands would only add single-call file operations; the remaining part of `host_tools/luac.c` prints listings.
- The Lua compiler and VM, zbus, sys_heap, LittleFS and nanopb themselves are not part of this model.
