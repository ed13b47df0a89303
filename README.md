# neovim-mac core, modelled in Dafny

This project models the core of neovim-mac. neovim-mac is a macOS front end that runs Neovim as a child process. It talks to Neovim in MessagePack-RPC and draws what Neovim's redraw events describe. The model covers these parts:

- **MessagePack values and text** (`Wire`, `wire.dfy`):
  - the object variant;
  - integers stored as 64 raw bits and read as signed or unsigned where they are used;
  - map lookup by key;
  - the `to_string` and `type_string` renderings.
- **The packer** (`Packing`, `packer.dfy`). It writes the smallest MessagePack form of each value into a circular buffer.
- **The unpacker** (`Decoding`, `decoder.dfy`; `Unpacking`, `unpacker.dfy`).
  - The source writes it as a coroutine that suspends whenever its input runs out.
  - The model gives it a pure recursive-descent decoder as its reference.
  - It also gives a resumable reader with explicit continuation frames, as a class with `Feed` and `Unpack`.
- **Encode/decode round trips** (`RoundTrip`, `roundtrip.dfy`). Anything the packer writes, the unpacker reads back, however the bytes are split into chunks.
- **The circular buffer** (`CircularBuffers`, `circular_buffer.dfy`):
  - a FIFO byte buffer whose storage is mirrored virtual memory;
  - a capacity that is a power of two;
  - an index reduced with a bit mask.
- **The bump allocator** (`BumpAllocation`, `bump_allocator.dfy`):
  - allocation that counts down inside a backing buffer;
  - a chain of used buffers;
  - growth by doubling.
- **The RPC layer** (`Rpc`, `rpc.dfy`):
  - the response-handler table of message ids and contexts;
  - the race between a reply and a timeout;
  - request framing;
  - message classification;
  - the `get_mode` reply decoder.
- **Editor modes** (`Modes`, `modes.dfy`). These are the mode enumeration and its group tests.
- **The UI controller** (`Grids`, `grid.dfy`; `Highlights`, `highlights.dfy`; `Ui`, `ui.dfy`). The model covers:
  - the redraw event dispatcher;
  - `grid_resize`, `grid_line`, `grid_clear`, `grid_cursor_goto` and `grid_scroll`;
  - `busy_start`/`busy_stop` and `flush`;
  - the highlight table and `hl_attr_define`;
  - `default_colors_set`;
  - `mode_info_set` and `mode_change`.
- **Option parsers of the UI** (`Colors`, `colors.dfy`; `Fonts`, `fonts.dfy`; `GuifontSplitting`, `guifont_split.dfy`). These are the `#rrggbb` colour parser, `make_font`, and the `guifont` list parser, with the lemma that splits a list at its first separating comma.

Shared arithmetic lives in `Common` (`common.dfy`). This covers 64-bit wrap-around, powers of two, and big-endian byte strings.

Stateful code is written as classes that hold the source's fields. Each method is specified by a pure function of the old state, for example `State() == LineEvent(old(State()), ...)`. Lemmas prove what the source promises about those functions. Loops that the source runs over arrays of objects are module-level methods with loop invariants.

Where the code and its surrounding documentation disagree, the model follows the code:

- `grid_resize` keeps the prefix of the old cell vector, as `std::vector::resize` does. It does not clear the grid.
- An `hl_attr_define` for an id beyond the end of the table defines entry `id - 1`.

## Model

| member | source | states |
|---|---|---|
| Common.BigEndianRoundTrip | src/msgpack.hpp:519-534 | a number below 256^width written as `width` big-endian bytes reads back as itself |
| Wire.SignedValue | src/msgpack.hpp:158-163 | signed_value is the two's-complement reading of the 64 stored bits: within int64 range and congruent to the bits mod 2^64 |
| Wire.AsUnsigned | src/msgpack.hpp:172-181 | narrowing `as<T>` to an unsigned width keeps the value below 2^width |
| Wire.AsSigned | src/msgpack.hpp:172-181 | narrowing `as<T>` to a signed width yields a value that fits that width |
| Wire.SignedRoundTrip | src/msgpack.hpp:146-163 | an integer built from an int64 returns it from signed_value |
| Wire.UnsignedRoundTrip | src/msgpack.hpp:146-169 | an integer built from a uint64 returns it from unsigned_value and from `as<uint64_t>` |
| Wire.AsSignedRoundTrip | src/msgpack.hpp:146-181 | a signed value that fits a narrower signed width survives narrowing |
| Wire.SignIsLost | src/msgpack.hpp:146-155 | an integer keeps only its 64 bits: -1 and 2^64-1 make the same object |
| Wire.MapGet | src/msgpack.hpp:117-125 | map lookup returns the value of the first pair whose key is equal, and nothing exactly when no key is equal |
| Wire.Join | src/msgpack.cpp:23-42 | the joined text of no parts is empty and of one part is that part |
| Wire.JoinAppend | src/msgpack.cpp:30-35 | the parts of two or more are separated by ", ": joining a + b is joining a, then ", ", then joining b |
| Wire.TypeStringShapeOnly | src/msgpack.cpp:100-146 | type_string depends only on the shape of an object (variant, nesting, arity), never on its scalar values |
| Wire.TypeStringsShapeOnly | src/msgpack.cpp:100-146 | the same for the element type strings of an array |
| Wire.PairTypeStringsShapeOnly | src/msgpack.cpp:100-146 | the same for the key/value type strings of a map |
| Wire.PairTypeStringShapeOnly | src/msgpack.cpp:100-146 | the same for one key/value pair |
| Wire.Decimal | src/msgpack.cpp:49-51 | the decimal text of a number is a non-empty string of digits |
| Wire.DecimalRoundTrip | src/msgpack.cpp:49-51 | reading the decimal text of n gives back n |
| Wire.HexByteRoundTrip | src/msgpack.cpp:67-75 | the two hex digits a binary byte is printed as read back as that byte |
| Wire.HexBytes | src/msgpack.cpp:67-75 | binary data prints as one two-digit hex pair per byte, in order |
| Wire.IntegerTextRoundTrip | src/msgpack.cpp:49-51 | `to_string` of an integer is the decimal text of its unsigned reading, so a negative v prints as v + 2^64 |
| CircularBuffers.RoundPage | src/circular_buffer.hpp:43 | page rounding (also used by copy assignment at line 77) yields the least page multiple not below the size |
| CircularBuffers.NextPowerOfTwoIsLeast | src/circular_buffer.hpp:36-44 | the power of two chosen is the least one not below the request |
| CircularBuffers.RoundUpCapacityMeaning | src/circular_buffer.hpp:36-44 | round_up_capacity yields 0 for 0 and above 2^63, otherwise the page-rounded least power of two not below the request, a power of two that is at least one page |
| CircularBuffers.MaskIsRemainder | src/circular_buffer.hpp:195-199 | masking with capacity-1 is the remainder modulo a power-of-two capacity |
| CircularBuffers.Mirror | src/circular_buffer.cpp:16-51 | an address in the mirrored mapping reads the byte at its offset modulo the capacity |
| CircularBuffers.CircularBuffer.constructor | src/circular_buffer.hpp:57-62 | a new buffer is empty with capacity round_up_capacity(initial) |
| CircularBuffers.CircularBuffer.Empty | src/circular_buffer.hpp:50-55 | the default buffer is empty with no storage |
| CircularBuffers.CircularBuffer.Copy | src/circular_buffer.hpp:64-71 | a copy holds the same bytes with the same capacity, starting at index 0 |
| CircularBuffers.CircularBuffer.Size | src/circular_buffer.hpp:124-126 | size is the number of unconsumed bytes and never exceeds the capacity |
| CircularBuffers.CircularBuffer.At | src/circular_buffer.hpp:152-155 | element i is the i-th unconsumed byte |
| CircularBuffers.CircularBuffer.Clear | src/circular_buffer.hpp:159-162 | clear empties the contents and keeps the storage |
| CircularBuffers.CircularBuffer.Consume | src/circular_buffer.hpp:195-199 | consume drops exactly the first n bytes and keeps the storage |
| CircularBuffers.CircularBuffer.Resize | src/circular_buffer.cpp:71-81 | resize moves the contents unchanged into fresh storage of the new size, index 0 |
| CircularBuffers.CircularBuffer.AppendInPlace | src/circular_buffer.hpp:182-191 | bytes that fit are appended without reallocating |
| CircularBuffers.CircularBuffer.InsertExpanded | src/circular_buffer.cpp:83-90 | growing appends the bytes and sets capacity to the larger of twice the old and round_up_capacity(2n) |
| CircularBuffers.CircularBuffer.PushBack | src/circular_buffer.hpp:173-179 | push_back appends one byte; the capacity changes only when the buffer was full |
| CircularBuffers.CircularBuffer.Insert | src/circular_buffer.hpp:182-191 | insert appends the bytes; the capacity changes only when they do not fit |
| CircularBuffers.CircularBuffer.Reserve | src/circular_buffer.hpp:166-170 | reserve keeps the contents and makes the capacity at least the request, unchanged if already enough |
| CircularBuffers.CircularBuffer.AssignFrom | src/circular_buffer.hpp:73-86 | copy assignment makes the contents those of the source, growing only when too small (corrected capacity, see Findings) |
| CircularBuffers.CircularBuffer.CopyIn | src/circular_buffer.hpp:84 | copying into enough storage lays the source's bytes out from index 0 |
| CircularBuffers.CircularBuffer.Move | src/circular_buffer.hpp:88-98 | a move takes the storage and contents and leaves the source empty with no storage |
| CircularBuffers.CircularBuffer.MoveFrom | src/circular_buffer.hpp:100-114 | move assignment takes the storage and contents and leaves the source empty |
| CircularBuffers.CopyAssignBreaksConsume | src/circular_buffer.hpp:73-86 | for any power-of-two page size P, copying 3P bytes into a one-page buffer as written gives a capacity of 3P, which is not a power of two; after consuming 2P, inserting P and consuming P, the index is 2P instead of 0 and the P live bytes are read from consumed storage |
| CircularBuffers.InsertWritesFrom | src/circular_buffer.hpp:182-191 | inserting into the ring as written stores the bytes at consecutive positions after the end of the live bytes and leaves every other position alone |
| CircularBuffers.AssignScenario | src/circular_buffer.hpp:73-86 | with the corrected copy assignment the same sequence of consume, insert and consume reads back exactly the inserted bytes |
| CircularBuffers.FifoScenario | src/circular_buffer.hpp:182-199 | insert a, insert b, consume \|a\|, insert c leaves exactly b + c |
| CircularBuffers.ReadAll | src/circular_buffer.hpp:152-155 | reading elements 0..size-1 yields the contents |
| BumpAllocation.AlignDown | src/bump_allocator.hpp:55-57 | align_down gives the greatest multiple of 8 not above the value |
| BumpAllocation.AlignUp | src/bump_allocator.hpp:59-61 | align_up gives the least multiple of 8 not below the value, and wraps to 0 above 2^64-8 |
| BumpAllocation.BumpAllocator.Empty | src/bump_allocator.hpp:132-137 | the default allocator has no buffer and no used buffers |
| BumpAllocation.BumpAllocator.constructor | src/bump_allocator.hpp:141-144 | the sized allocator owns one backing buffer of align_up(capacity) bytes, all of it free past the header |
| BumpAllocation.BumpAllocator.BackingBuffer | src/bump_allocator.hpp:93-100 | the backing buffer sits one header before the start, or is null |
| BumpAllocation.BumpAllocator.Capacity | src/bump_allocator.hpp:184-186 | capacity is end minus the backing buffer, 0 with no buffer |
| BumpAllocation.BumpAllocator.Remaining | src/bump_allocator.hpp:189-191 | remaining is the distance from the start to the bump pointer |
| BumpAllocation.BumpAllocator.PushUsedBuffer | src/bump_allocator.hpp:65-72 | a non-null buffer is chained at the head of the used list |
| BumpAllocation.BumpAllocator.PopUsedBuffer | src/bump_allocator.hpp:74-79 | the head of the used list is unlinked and returned |
| BumpAllocation.BumpAllocator.NewBackingBuffer | src/bump_allocator.hpp:81-91 | a new backing buffer has the requested capacity, all free; the used list is left alone, since the callers push the old buffer onto it first |
| BumpAllocation.BumpAllocator.AllocWithNewBacking | src/bump_allocator.hpp:102-117 | the slow path makes one new buffer of max(2·old capacity, 2·align_up(size)) bytes, aborting when that size needs 64 bits or more (corrected overflow test, see Findings), and returns an aligned block inside the new buffer |
| BumpAllocation.BumpAllocator.AllocImpl | src/bump_allocator.hpp:119-129 | the fast path bumps down and aligns when the block fits above the start; otherwise the slow path retires the old buffer onto the used list (when there is one), takes a new buffer of NewBackingSize bytes and returns its block, aborting with nothing changed exactly when that size needs 64 bits |
| BumpAllocation.BumpAllocator.Alloc | src/bump_allocator.hpp:202-207 | every block returned is aligned to 8 and lies between start and end; the request grows by the guard bytes, then takes the fast path when it fits and otherwise the slow path, with the same new buffer, used list and abort case as AllocImpl |
| BumpAllocation.BumpAllocator.Reserve | src/bump_allocator.hpp:194-199 | after reserve at least the requested bytes remain; nothing changes if they already did |
| BumpAllocation.BumpAllocator.DeallocAll | src/bump_allocator.hpp:210-217 | dealloc_all frees every used buffer and resets the pointer to the end of the current buffer |
| BumpAllocation.BumpAllocator.Destroy | src/bump_allocator.hpp:178-181 | the destructor frees the current buffer and every used buffer |
| BumpAllocation.BumpAllocator.Move | src/bump_allocator.hpp:149-159 | a move takes all fields and leaves the source empty |
| BumpAllocation.BumpAllocator.MoveFrom | src/bump_allocator.hpp:161-176 | move assignment frees the target's buffers, takes the source's, and empties the source |
| BumpAllocation.BlocksAreDisjoint | src/bump_allocator.hpp:119-129 | blocks allocated from the current buffer never overlap and stay above its start |
| BumpAllocation.SlowPathOverflowEscapes | src/bump_allocator.hpp:105-110 | as written, a request of 2^63 on a 0x4000 buffer passes the overflow check and gets a block outside its 0x8000-byte buffer |
| BumpAllocation.SlowPathOverflowAborts | src/bump_allocator.hpp:105-110 | with the overflow check on the doubled size, that request aborts |
| Decoding.Classify | src/msgpack.cpp:321-468 | each leading byte selects one MessagePack form; length and payload widths are 1, 2, 4 or 8 bytes |
| Decoding.CountOf | src/msgpack.cpp:366-376 | an ext payload counts its type byte; for ext32 the count wraps at 2^32 |
| Decoding.Slots | src/msgpack.cpp:195-199 | a map of n pairs waits for 2n child objects |
| Decoding.SignedOf | src/msgpack.cpp:402-416 | signed payloads read as two's complement of their width |
| Decoding.Pairs | src/msgpack.cpp:195-216 | the children of a map pair up in order: key 2i with value 2i+1 |
| Decoding.DecodeStream | src/msgpack.cpp:470-542 | decoding a stream stops exactly where the remaining bytes are an incomplete object |
| Decoding.DecodeObjectPrefix | src/msgpack.cpp:233-267 | an object that decodes from some bytes decodes the same when more bytes follow |
| Unpacking.UnpackF | src/msgpack.hpp:363-385 | one unpack call yields an object only after consuming input |
| Unpacking.UnpackExtend | src/msgpack.hpp:363-385 | feeding more bytes after a completed object does not change it |
| Unpacking.DrainDecodes | src/msgpack.cpp:470-542 | the resumable reader yields exactly the objects of the recursive-descent reference |
| Unpacking.ChunkedDecodes | src/msgpack.hpp:439-459 | the objects yielded do not depend on how the byte stream is split into feeds |
| Unpacking.Unpacker.constructor | src/msgpack.cpp:308-318 | a new unpacker waits for a first byte, with no input |
| Unpacking.Unpacker.Feed | src/msgpack.hpp:439-443 | feed installs the bytes without disturbing the parse state |
| Unpacking.Unpacker.Unpack | src/msgpack.hpp:457-459 | unpack advances the state exactly as the reference step function does |
| Unpacking.UnpackAll | src/msgpack.hpp:281-295 | feeding chunks and unpacking until null yields the objects of the concatenated stream |
| Packing.Numeric | src/msgpack.hpp:519-534 | a numeric form is the prefix byte and the value mod 256^width in big-endian order |
| Packing.EncodeUintForm | src/msgpack.hpp:605-617 | pack_uint64 picks fixint, uint8, uint16, uint32 or uint64 by the least width that holds the value |
| Packing.EncodeIntForm | src/msgpack.hpp:619-633 | pack_int64 sends non-negatives as unsigned and negatives as negative fixint or the least int width |
| Packing.StrHeaderForm | src/msgpack.hpp:663-677 | a string header is fixstr, str8, str16 or str32 by length |
| Packing.EncodeStr | src/msgpack.hpp:663-677 | a packed string is its header followed by the bytes |
| Packing.ContainerHeaderForm | src/msgpack.hpp:687-709 | array and map headers are the fix form below 16 elements, else the 16- or 32-bit form |
| Packing.EncodeBool | src/msgpack.hpp:679-681 | a boolean is the single byte 0xc3 for true and 0xc2 for false |
| Packing.EncodeAllSnoc | src/msgpack.hpp:712-719 | packing a list element by element builds the list's encoding |
| Packing.Packer.constructor | src/msgpack.hpp:551 | a new packer holds no bytes |
| Packing.Packer.Size | src/msgpack.hpp:556-558 | size is the number of unconsumed packed bytes |
| Packing.Packer.Consume | src/msgpack.hpp:588-590 | consume drops the first n packed bytes |
| Packing.Packer.Clear | src/msgpack.hpp:593-595 | clear drops all packed bytes |
| Packing.Packer.PackNumeric | src/msgpack.hpp:600-603 | appends the prefix and the big-endian value |
| Packing.Packer.PackUint64 | src/msgpack.hpp:605-617 | appends the unsigned encoding |
| Packing.Packer.PackInt64 | src/msgpack.hpp:619-633 | appends the signed encoding |
| Packing.Packer.PackString | src/msgpack.hpp:663-677 | appends header and bytes |
| Packing.Packer.PackStrHeader | src/msgpack.hpp:663-674 | appends the string header alone |
| Packing.Packer.PackBool | src/msgpack.hpp:679-681 | appends the boolean byte |
| Packing.Packer.PackNull | src/msgpack.hpp:683-685 | appends 0xc0 |
| Packing.Packer.StartArray | src/msgpack.hpp:689-697 | appends the array header |
| Packing.Packer.StartMap | src/msgpack.hpp:701-709 | appends the map header |
| Packing.Packer.Pack | src/msgpack.hpp:639-661 | appends the encoding of any value, recursively |
| Packing.Packer.PackArray | src/msgpack.hpp:712-719 | appends the header and each element in order |
| Packing.Packer.PackMap | src/msgpack.hpp:722-730 | appends the header and each key followed by its value |
| Packing.Packer.PackEntry | src/msgpack.hpp:726-729 | appends a key then its value |
| RoundTrip.EncodeDecodes | src/msgpack.hpp:639-661 | decoding what pack wrote gives back the value, consuming exactly its bytes |
| RoundTrip.EncodeUintDecodes | src/msgpack.hpp:605-617 | every packed uint64 decodes to the same integer |
| RoundTrip.EncodeIntDecodes | src/msgpack.hpp:619-633 | every packed int64 decodes to the same integer |
| RoundTrip.EncodeStrDecodes | src/msgpack.hpp:663-677 | every packed string decodes to the same string |
| RoundTrip.EncodeAllDecodes | src/msgpack.hpp:712-719 | packed array elements decode to the elements in order |
| RoundTrip.EncodeEntriesDecodes | src/msgpack.hpp:722-730 | packed map entries decode to alternating keys and values |
| RoundTrip.PairsOfAlternating | src/msgpack.cpp:195-216 | pairing the alternating children gives back the entries |
| RoundTrip.StreamDecodes | src/msgpack.hpp:281-295 | a stream of packed values decodes to those values, consuming them all |
| RoundTrip.PackThenUnpack | src/msgpack.hpp:439-459 | packing values, then feeding the bytes in any chunks and unpacking, yields the values |
| Modes.GroupOf | src/neovim.hpp:74-146 | every mode except the shell mode belongs to a group |
| Modes.TestsMatchGroups | src/neovim.hpp:74-146 | each `is_*_mode` test holds exactly for the modes of its group |
| Modes.PairwiseDisjoint | src/neovim.hpp:74-146 | no mode passes two of the group tests |
| Modes.OnlyShellUngrouped | src/neovim.hpp:38-146 | some group test holds for a mode exactly when it is not the shell mode |
| Rpc.FirstEmpty | src/neovim.cpp:179-189 | the first empty slot of a range, with every slot before it occupied |
| Rpc.FirstIdIsOne | src/neovim.hpp:175-179 | a fresh table starts with last_index 0, so the first message id is 1 |
| Rpc.EmptySlot | src/neovim.cpp:179-189 | the search starts after the last id used, wraps round, and finds an empty slot other than the last id, or reports the table full |
| Rpc.Placed | src/neovim.cpp:191-196 | a full table doubles before the context is stored |
| Rpc.ResponseHandlerTable.constructor | src/neovim.hpp:177-179 | the table starts with all slots empty and no contexts |
| Rpc.ResponseHandlerTable.Get | src/neovim.hpp:200-204 | get returns the context in a slot and empties the slot |
| Rpc.ResponseHandlerTable.FreeContext | src/neovim.hpp:184-186 | a freed context goes on the free list |
| Rpc.ResponseHandlerTable.AllocContext | src/neovim.cpp:165-174 | a context comes off the end of the free list, or is newly created when the list is empty |
| Rpc.ResponseHandlerTable.FindEmptySlot | src/neovim.cpp:179-189 | the loop finds the slot EmptySlot describes |
| Rpc.ResponseHandlerTable.StoreContext | src/neovim.cpp:176-199 | the context lands in that slot, which becomes the last id |
| Rpc.ResponseHandlerTable.StoreHandler | src/neovim.cpp:201-239 | storing a handler keeps the table coherent and returns the new message id |
| Rpc.ResponseOf | src/neovim.cpp:436-465 | a response keeps the table coherent and the id count unchanged; it only appends to the call log, and it yields a handler call, carrying the response's error and result, exactly when the call log grows |
| Rpc.ResponseHandlerTable.OnRpcResponse | src/neovim.cpp:436-465 | the new table state and the handler call are those ResponseOf gives for the old state |
| Rpc.ResponseHandlerTable.TimerFires | src/neovim.cpp:225-236 | a timeout runs the handler with the timed-out flag unless the reply came first |
| Rpc.StoreKeepsCoherent | src/neovim.cpp:176-199 | storing keeps ids and contexts distinct and every live context reachable |
| Rpc.AnsweredKeepsCoherent | src/neovim.cpp:436-465 | answering a waiting handler keeps the table coherent |
| Rpc.WaitingTimerKeepsCoherent | src/neovim.cpp:225-236 | a timeout on a waiting handler keeps the table coherent |
| Rpc.OnRpcMessage | src/neovim.cpp:421-434 | arrays shaped as notifications are dispatched as notifications; a response yields the handler call and table state ResponseOf gives; anything else is dropped |
| Rpc.RaceScenario | src/neovim.cpp:214-239 | whichever of reply and timeout comes first runs the handler; the other runs nothing |
| Rpc.RpcRequest | src/neovim.cpp:481-496 | a request packs [0, msgid, method, args] and asks to resume writing exactly when the buffer was empty |
| Rpc.RequestDecodes | src/neovim.cpp:481-496 | the request bytes decode to a 4-element array of type 0, the id, the name and the arguments |
| Rpc.NotificationDecodes | src/neovim.cpp:406-412 | a packed notification is classified as a notification |
| Rpc.ResponseDecodes | src/neovim.cpp:414-419 | a packed response is classified as a response |
| Rpc.FirstModeName | src/neovim.cpp:549-568 | the mode name is the value of the first "mode" key holding a string, or unknown when there is none |
| Rpc.ToNeovimMode | src/neovim.cpp:549-568 | an error or a non-map result gives the unknown mode |
| Rpc.ModeAgreesWithLookup | src/neovim.cpp:549-568 | with no error, a map whose "mode" key holds a string gives that mode |
| Colors.HexCharToDecimal | src/ui.cpp:899-925 | the value of a hex digit of either case, -1 exactly for other characters |
| Colors.HexDigitsRoundTrip | src/ui.cpp:899-925 | every digit value written in either case reads back as itself |
| Colors.ToRgbValue | src/ui.cpp:927-936 | two hex digits form one channel below 256; anything else fails |
| Colors.ToRgbColor | src/ui.cpp:938-952 | a colour is parsed exactly from '#' and six hex digits, giving an untagged value below 2^24 |
| Colors.ColorTextRoundTrip | src/ui.cpp:938-952 | every 24-bit colour survives being written as "#rrggbb" and parsed |
| Colors.CaseInsensitive | src/ui.cpp:899-952 | upper-casing the digits does not change the colour parsed |
| Colors.SetColor | src/ui.cpp:954-969 | empty text selects the tagged default colour, malformed text keeps the colour, well-formed text sets it |
| Fonts.Find | src/ui.cpp:1037-1059 | find returns the first position of the character at or after the start |
| Fonts.DigitsStart | src/ui.cpp:1037-1059 | the trailing run of digits starts after the last non-digit |
| Fonts.MakeFont | src/ui.cpp:1037-1059 | the loop computes FontOf: a name with a ":h<digits>" suffix takes the suffix as its size, read mod 2^64 |
| Fonts.FontRoundTrip | src/ui.cpp:1037-1059 | a name written with ":h" and a decimal size parses back to that name and size |
| Fonts.NoSizeSuffix | src/ui.cpp:1037-1059 | a text without ":h" names the font and keeps the default size |
| Fonts.UnescapedCommaFrom | src/ui.cpp:1061-1077 | the first comma at or after the start that no backslash escapes |
| Fonts.FindUnescapedComma | src/ui.cpp:1061-1077 | the loop finds that comma |
| Fonts.AsWrittenThrows | src/ui.cpp:1100-1104 | as written, parsing fails exactly when a separator is followed only by spaces |
| Fonts.AsWrittenAgrees | src/ui.cpp:1079-1108 | when it does not fail, the code as written gives the corrected list |
| Fonts.TrailingCommaThrows | src/ui.cpp:1100-1104 | as written, "Menlo," fails where the corrected parser gives [Menlo] |
| Fonts.OneFont | src/ui.cpp:1079-1108 | a text without separators is one font, and the code as written agrees |
| Fonts.ParseGuifont | src/ui.cpp:1079-1108 | the loop splits at unescaped commas, skips spaces after each, and makes a font of each piece |
| Fonts.NextFont | src/ui.cpp:1089-1100 | one turn of the loop yields the font up to the next separating comma and the start of the next font, which lies beyond the current one; that font followed by the fonts from there is the list from the current position |
| GuifontSplitting.GuifontFromTexts | src/ui.cpp:1079-1108 | the fonts are make_font applied to each piece of the split, in order |
| GuifontSplitting.TextsAgree | src/ui.cpp:1061-1077 | the split from a position depends only on the text from there on (and on its first character not being a comma) |
| GuifontSplitting.GuifontSplit | src/ui.cpp:1085-1106 | "a,b" parses as the font of a followed by the fonts of b, when a has no separating comma and does not end in a backslash and b starts with neither a space nor a comma |
| Highlights.NewEntryShape | src/ui.cpp:42-58 | a new entry appends, replaces, or pads the table with copies of entry 0 |
| Highlights.HlGetEntry | src/ui.cpp:29-36 | the entry read is always one of the table's: a defined id reads its own entry, any other id the default entry 0 |
| Highlights.NewEntryTable | src/ui.cpp:42-58 | the next id appends, a used id is reset and an id past the end pads the table to that many entries; entry 0 and every other old entry are kept, and the reset and padded entries are copies of entry 0 |
| Highlights.NewEntryIndex | src/ui.cpp:42-58 | the entry handed back is the id itself up to the table size, and the last entry of the padded table past it; either way it holds a copy of entry 0 |
| Highlights.DefinedIdReadsBack | src/ui.cpp:29-58 | an id at most the table size reads back the attributes defined for it |
| Highlights.GapDefinesPreviousId | src/ui.cpp:55-57 | an id beyond the end defines entry id-1, and id itself reads as entry 0 |
| Highlights.FlagsAccumulate | src/ui.cpp:474-516 | the flags of a definition are the base flags plus those its keys name |
| Highlights.ColorsLastWins | src/ui.cpp:463-516 | each colour takes the last integer given for its key |
| Highlights.ReverseSwaps | src/ui.cpp:513-515 | a reversed definition swaps foreground and background |
| Highlights.ApplyDefinition | src/ui.cpp:474-516 | the loop computes the definition |
| Highlights.AdjustDefaults | src/ui.cpp:430-445 | adjust_defaults keeps flags and every colour that is not tagged as default |
| Highlights.AdjustIdempotent | src/ui.cpp:430-445 | adjusting twice is adjusting once |
| Highlights.DefaultEntryFixed | src/ui.cpp:447-452 | the new default entry is unchanged by adjusting against itself |
| Highlights.NumberLastWins | src/ui.cpp:580-587 | each cursor number takes the last integer given for its key, truncated to 16 bits |
| Highlights.BlinksIff | src/ui.cpp:599-601 | a cursor blinks exactly when blinkwait, blinkon and blinkoff are all non-zero |
| Highlights.ColorsFromLastAttrId | src/ui.cpp:534-547 | cursor colours come from the last attr_id, swapped for id 0 |
| Highlights.ToCursorAttributes | src/ui.cpp:565-604 | the loop computes the cursor attributes |
| Highlights.ToCursorShape | src/ui.cpp:518-532 | "vertical" and "horizontal" give those shapes exactly; "block" and every unknown name give the block shape |
| Highlights.SetColorAttrs | src/ui.cpp:534-547 | only the three colours change; special comes from the entry, and foreground and background come from it as they are, or crossed for id 0 |
| Highlights.ShortName | src/ui.cpp:592-595 | copying up to two bytes of the text over the 16-bit name: the low byte is the first byte of the text, the high byte the second, and a byte the text lacks keeps its old value |
| Grids.Resized | src/ui.cpp:229-234 | resizing keeps the old cells as a prefix and pads with empty cells |
| Grids.CursorGotoOf | src/ui.cpp:351-363 | the cursor moves exactly when the position is inside the grid |
| Grids.ScrollClosedForm | src/ui.cpp:365-405 | after a scroll each cell in the region whose source row is inside it holds that source cell; all other cells keep their value |
| Grids.LineStep | src/ui.cpp:299-336 | one cell update stays within the row; empty text with no column left ends the line (corrected, see Findings) |
| Grids.ParseCell | src/ui.cpp:254-282 | a cell is accepted exactly when it is an array of a string, optionally followed by one or two integers; its text is the string, its highlight the table entry of the first integer (else the previous one), and its repeat the second integer (else 1) |
| Grids.LineRunAppend | src/ui.cpp:299-337 | updates applied in two batches equal the updates applied at once |
| Grids.OverflowKeepsEarlierWrites | src/ui.cpp:306-308 | an update longer than the rest of the row stops the event but keeps earlier writes |
| Grids.LineStaysInRow | src/ui.cpp:285-338 | grid_line changes no cell outside its row (corrected, see Findings) |
| Grids.LineWritesExpansion | src/ui.cpp:326-336 | plain updates write their repeated cells one after another from the start column |
| Grids.TextOnlyReusesHighlight | src/ui.cpp:261-265 | a cell without a highlight id keeps the previous one |
| Grids.EmptyTextWidensLeftCell | src/ui.cpp:311-325 | empty text marks the left cell double width and copies its attributes |
| Grids.EmptyTextAtRowStartEnds | src/ui.cpp:314-316 | empty text at the row start ends the event with nothing written |
| Grids.EmptyTextEscapesRow | src/ui.cpp:306-325 | as written, empty text with repeat 0 at the end of a row writes the first cell of the next row |
| Ui.LastNamed | src/ui.cpp:618-622 | the cursor is the last mode entry with the current short name, or unchanged |
| Ui.ModeEntriesOfMaps | src/ui.cpp:606-627 | mode_info_set records one cursor entry per property map |
| Ui.ModeChangeSelects | src/ui.cpp:629-637 | mode_change after mode_info_set selects the cursor of that map |
| Ui.ModeChangeOutOfRange | src/ui.cpp:630-634 | an index outside the table changes nothing |
| Ui.DefaultColorsIdempotent | src/ui.cpp:447-461 | setting the same default colours twice is setting them once |
| Ui.DefinedHighlightIsLookedUp | src/ui.cpp:474-516 | a defined highlight id looks up the attributes its definition gives |
| Ui.RedrawSplits | src/ui.cpp:223-227 | redraw of a + b is redraw of a then of b |
| Ui.HaltedIsFinal | src/ui.cpp:140-148 | once get_grid has aborted, no event changes the state |
| Ui.FlushPublishes | src/ui.cpp:415-428 | after flush the completed grid is what was being written, with its draw tick one higher |
| Ui.FlushRoutes | src/ui.cpp:170-171 | a flush event runs flush |
| Ui.LineLoop | src/ui.cpp:299-337 | the loop applies the cell updates as LineRun does (corrected, see Findings) |
| Ui.FillRun | src/ui.cpp:327-333 | the copy loop writes c into exactly the n cells from pos on and leaves every other cell as it was |
| Ui.WriteCell | src/ui.cpp:299-336 | one iteration stays within the row: no cell outside it changes, the write position and the columns left still sum to the row end, and an update that fails its type check ends the line with nothing written (corrected, see Findings) |
| Ui.ModeLoop | src/ui.cpp:611-626 | the loop builds the mode table and picks the cursor |
| Ui.CopyLoop | src/ui.cpp:400-404 | the loop copies rows as CopyRows does |
| Ui.AdjustTable | src/ui.cpp:454-456 | the loop adjusts every highlight entry |
| Ui.AdjustGrid | src/ui.cpp:458-460 | the loop adjusts every cell |
| Ui.UiController.constructor | src/ui.cpp:21-25 | a controller starts with empty grids and the default highlight group at index 0 |
| Ui.UiController.GridResize | src/ui.cpp:229-234 | grid_resize as ResizeEvent |
| Ui.UiController.GridLine | src/ui.cpp:285-338 | grid_line as LineEvent (corrected, see Findings) |
| Ui.UiController.GridClear | src/ui.cpp:340-349 | grid_clear as ClearEvent |
| Ui.UiController.GridCursorGoto | src/ui.cpp:351-363 | grid_cursor_goto as CursorGotoEvent |
| Ui.UiController.GridScroll | src/ui.cpp:365-405 | grid_scroll as ScrollEvent |
| Ui.UiController.BusyStart | src/ui.cpp:407-409 | busy_start hides the cursor |
| Ui.UiController.BusyStop | src/ui.cpp:411-413 | busy_stop shows the cursor |
| Ui.UiController.Flush | src/ui.cpp:415-428 | flush as FlushEvent |
| Ui.UiController.HlNewEntry | src/ui.cpp:42-58 | hl_new_entry as NewEntryTable, returning the entry's index |
| Ui.UiController.HlAttrDefine | src/ui.cpp:474-516 | hl_attr_define as HighlightEvent |
| Ui.UiController.DefaultColorsSet | src/ui.cpp:447-461 | default_colors_set as DefaultColorsEvent |
| Ui.UiController.ModeInfoSet | src/ui.cpp:606-627 | mode_info_set as ModeInfoEvent |
| Ui.UiController.ModeChange | src/ui.cpp:629-637 | mode_change as ModeChangeEvent |
| Ui.UiController.ApplyOne | src/ui.cpp:107-126 | an argument tuple that type-checks calls the handler, anything else changes nothing |
| Ui.UiController.RedrawEvent | src/ui.cpp:150-221 | each named event is routed to its handler, each tuple in turn |
| Ui.UiController.Redraw | src/ui.cpp:223-227 | redraw applies the events in order |

## Left out

- Floating-point values: the packer's `pack_float64` and the float32-to-double conversion of the unpacker. Float payloads are kept as their raw bytes.
- Threads, locks, dispatch queues and semaphores. The `flush` semaphore signal and window redraw request are not modelled. The triple-buffered grid exchange is modelled as two grids: the one being written and the completed one.
- I/O and process control: spawning Neovim, sockets, reading and writing the pipe, and `get_mode`'s timeout wait.
- Memory: `malloc` and the mirrored virtual-memory mapping of the circular buffer are parameters or abstract. Their failures are not modelled.
- Handlers and contexts are identified by numbers. The closures they stand for are not modelled.
- `option_set`, `set_title`, `tabline_update`, `colorscheme_update` and the ignored event names are not modelled. The dispatcher leaves the modelled state unchanged for these names.
- Message ids are kept as unbounded naturals. The `uint32_t` narrowing of slot indices is left out.
- The `cell`, `cell_attributes`, `rgb_color` and `cursor_attributes` types are declared in headers that are not part of this model. They are modelled abstractly: colours are assumed packed as 0xRRGGBB, and default values are zero colours, no flags and empty text.
- `make_neovim_mode` is not part of this model. The mode reply is modelled by the name it carries.
- Strings on the wire are bytes. The model reads each byte as a character below 256, with no UTF-8 decoding.
- Font sizes are reals. The rounding of a size through `double` is not modelled.
- The `draw_tick` counter is an unbounded natural.
- CircularBuffers.RoundUpCapacity: modelled by its result (the page-rounded least power of two, 0 for 0 and above 2^63). The bit-smearing loop of round_up_capacity is not stepped.
- The page size `PAGE_SIZE` is fixed at 4 KiB. The source reads `vm_page_size` at run time, which is 16 KiB on arm64. The copy-assignment finding is proved for any power-of-two page size.
- CircularBuffers.CircularBuffer.Reserve: requires the request to be at most 2^63. Above that, round_up_capacity wraps to 0 and the assertion in resize (src/circular_buffer.cpp:72) fails; that path is not modelled.
- CircularBuffers.CircularBuffer.Insert: requires the capacity to stay at most 2^62 so that doubling cannot wrap. The 64-bit overflow of the doubled capacity is not modelled.
- Packing.Packer.Pack: like every Packer method (PackNumeric, PackUint64, PackInt64, PackString, PackStrHeader, PackBool, PackNull, PackArray, PackMap, PackEntry), requires the packed stream to stay below 2^60 bytes, which keeps the underlying buffer's capacity in range.
- Ui.UiController.GridResize: a `width * height` that would overflow 64 bits is modelled as the controller halting. It is not modelled as a wrapped vector size.
- Ui.HaltedIsFinal: the `std::abort` in `get_grid` for a grid id other than 1 is modelled as a halted flag that freezes the state.
- Ui.UiController.constructor: the controller's constructor is not part of this model. It is assumed to start with one default highlight entry and empty grids.

## Findings

| source | as written | input that shows it | evidently intended | confidence | as-written member | corrected member |
|---|---|---|---|---|---|---|
| src/circular_buffer.hpp:77 | copy assignment into a too-small buffer resizes to `other.size()`, which need not be a power of two | copy 0x3000 bytes into a buffer of capacity 0x1000 (any page size P: 3P bytes into a P-byte buffer), consume 0x2000, insert 0x1000, consume 0x1000: the index is 0x2000 instead of 0, and the 0x1000 live bytes are read from consumed storage | resize to `round_up_capacity(other.size())` so the capacity stays a power of two | not executed | CircularBuffers.CopyAssignBreaksConsume | CircularBuffers.CircularBuffer.AssignFrom |
| src/bump_allocator.hpp:105-110 | the only overflow test is `newsize < oldsize`, but `align_up(size) * 2` can wrap on its own | a 0x4000-byte buffer and a request of 2^63: `align_up(size) * 2` wraps to 0, newsize is 0x8000, the test passes, and the block lies outside the new buffer | abort whenever either doubled size overflows | not executed | BumpAllocation.SlowPathOverflowEscapes | BumpAllocation.BumpAllocator.AllocWithNewBacking |
| src/ui.cpp:1100-1104 | after skipping the spaces that follow a comma, the loop tests `pos` for npos, which it cannot be there, instead of `index` | "Menlo,": `index` becomes npos and the next `substr(index)` throws instead of the parser returning [Menlo] | stop when `index` is npos | not executed | Fonts.TrailingCommaThrows | Fonts.ParseGuifont |
| src/ui.cpp:306-325 | an empty text cell is checked against `remaining` only through its repeat count, which may be 0 | on a 2 x 2 grid, the line [["a", 0, 2], ["", 0, 0]] on row 0: the second update writes the right half of a wide character into the first cell of row 1, and `remaining` wraps to 2^64-1 | stop when no column remains in the row | not executed | Grids.EmptyTextEscapesRow | Grids.LineStep |
