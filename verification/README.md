# XArray walk and tags, nftables number generator, virtual-PD extcon

A Dafny model of three pieces of a Linux kernel tree.

- **The XArray core.** This covers the word encoding of entries (`include/linux/xarray.h`) and the read-only walk (`lib/xarray.c`). The walk is `xas_start`, `xas_descend`, `xas_load` and `xa_load`. It also covers tag handling: the per-node tag bitmaps, `xas_get_tag`/`xas_set_tag`/`xas_clear_tag`, `__xa_set_tag`/`__xa_clear_tag`, `xa_get_tag` and the array-wide tag flags.
  - The tree is an immutable datatype. Each node has 64 slots and 3 tag classes.
  - The operation state (`struct xa_state`) records its node as the path of slot offsets from the head node, not as a pointer.
  - Setting or clearing a tag rebuilds the nodes on that path.
- **The nftables number generator** (`net/netfilter/nft_numgen.c`). This covers the incremental counter step, configuration checks for the incremental and random generators and their map variants, and the choice among the four expression variants.
- **The virtual USB Type-C PD extcon driver** (`drivers/extcon/extcon-usbc-virtual-pd.c`). This covers the data-role table it reports, the software mask around its detect interrupt, and the debounced plug/unplug state machine.
  - Line levels and device properties are inputs.
  - Notifications, hardware interrupt calls, warnings and work scheduling are outputs, as a list of effects.

Files:

- `bits.dfy`: powers of two, the 64/32/8-bit word types, and the division and modulo facts the rest needs.
- `wrappers.dfy`: `Option`.
- `xa_entry.dfy`: the pointer/internal/value classification and `xa_mk_value`/`xa_to_value`.
- `xa_node.dfy`: entries, nodes, per-node tag bitmaps, `get_offset`, `xas_move_index`, paths, and the per-node tag invariant.
- `xa_walk.dfy`: the array, the operation state, the walk, `xa_load` and `xa_init_flags`.
- `xa_tag.dfy`: tag query, set and clear, with their invariant and frame theorems.
- `xa_examples.dfy`: small trees mirroring scenarios of `lib/test_xarray.c`.
- `numgen.dfy`, `virtual_pd.dfy`.

Where the doc comment of `xas_start` (lib/xarray.c:85-91) and its code disagree, the model follows the code. The comment says an out-of-range index leaves the state's node unchanged. The code moves it to `XAS_BOUNDS` (`set_bounds`, lines 103-107), and so does `Start`.

## Model

| member | source | states |
|---|---|---|
| XaEntry.MkValue | include/linux/xarray.h:36-40 | The encoded word is always classed as a value, and it decodes back to the integer whenever that integer is below 2^63, the bound the WARN_ON checks. |
| XaEntry.KindsPartition | include/linux/xarray.h:16-24 | The bottom two bits sort every word into exactly one of pointer (00), internal (10) and value (x1). |
| XaEntry.ValueRoundTrip | include/linux/xarray.h:49-64 | A value word decodes to an integer below 2^63, and re-encoding that integer gives back the same word. |
| XaEntry.MkValueDropsTopBit | include/linux/xarray.h:38-39 | At or above 2^63 the shift loses the top bit, so the decoded integer is 2^63 smaller. This is the case the WARN_ON flags. |
| XaEntry.MkValueStrictlyMonotone | lib/test_xarray.c:353-355 | On the valid range, encoding is strictly increasing, so encoded values compare like the integers they hold. |
| XaEntry.PointerAndInternalAreNotValues | include/linux/xarray.h:61-64 | `xa_is_value` is false for every pointer and every internal word. |
| XaNode.ChunkSplit | lib/xarray.c:66-69 | The index shifted right by `shift` splits into the digits above the node and the node's own base-64 digit. |
| XaNode.GetOffset | lib/xarray.c:66-69 | The offset is below 64 and is exactly the index's base-64 digit at the node's level. |
| XaNode.MoveIndexBackward | lib/xarray.c:72-77 | Moving to a slot at or before the current one never increases the index, aligns it to the node's level, sets the node's digit to the target slot, and keeps every higher digit. |
| XaNode.MoveIndex | lib/xarray.c:71-77 | `xas_move_index` in both directions. Moving to a sibling's canonical slot (backwards) never increases the index. Whenever the moved word fits in 64 bits, which covers every backward move and every forward (find) move below the top level, the index is aligned to the node's level, has the target slot as the node's digit and keeps every higher digit. |
| XaNode.NodeGetTag | lib/xarray.c:40-44 | Reads one bit of a class's bitmap; in a well-formed node no bit past the last slot reads as set. |
| XaNode.NodeSetTag | lib/xarray.c:46-51 | Returns the previous bit; the bit is set afterwards; every other (class, offset) bit and the slots are unchanged. |
| XaNode.NodeClearTag | lib/xarray.c:53-58 | Returns the previous bit; the bit is clear afterwards; every other bit and the slots are unchanged. |
| XaNode.NodeAnyTag | lib/xarray.c:60-63 | True exactly when some offset below 64 has the class's bit set. |
| XaWalk.SetBounds | lib/xarray.c:79-83 | The state becomes out of bounds, which is neither valid nor an error, and the result is NULL. Index, resolution and offset are unchanged. |
| XaWalk.Start | lib/xarray.c:92-112 | A walked state reloads where it stands. An error state gives NULL. Otherwise the state moves to the head when the head reaches the index (index 0 for a bare entry, below 64^(levels) for a node); if not, it goes out of bounds with NULL. Only the state's node changes. |
| XaWalk.Descend | lib/xarray.c:114-128 | The state steps into the node at the slot for its index. A sibling is resolved to its canonical earlier slot, and the index moves back to an aligned index with the same higher digits. The returned entry is the slot's content and is never a sibling. |
| XaWalk.Walk | lib/xarray.c:149-155 | Descent stops at the first entry that is not a node, or at a node below the state's resolution. The resolution fields are never changed, and a returned node lies below that resolution. |
| XaWalk.Load | lib/xarray.c:138-157 | An error state is left alone and gives NULL. An index beyond the head's reach gives NULL and the out-of-bounds state. Otherwise the result is a valid state and a well-formed entry. |
| XaWalk.XaLoad | lib/xarray.c:266-278 | `xa_load` always returns a non-internal entry, and NULL for any index the head does not reach. |
| XaWalk.InitFlags | lib/xarray.c:250-255 | The array keeps the given flags, and every index loads NULL. |
| XaWalk.WalkConsistent | lib/xarray.c:149-155 | A walk from a consistent state ends consistent: the state stands exactly where the returned entry is stored. |
| XaWalk.LoadConsistent | lib/xarray.c:266-278 | After `xa_load`'s walk the state stands at the returned entry's slot (or is out of bounds with NULL), at resolution 0. |
| XaWalk.LoadAgree | lib/xarray.c:145-157 | The walk never reads tag bits: trees that differ only in tags load the same entry at every index via the same state. |
| XaTag.FlagSet | lib/xarray.c:28-32 | `xa_tag_set` sets the class's flag, keeps the head and the other flags, and changes nothing if the flag was already set. |
| XaTag.FlagClear | lib/xarray.c:34-38 | `xa_tag_clear` clears the class's flag, keeps the head and the other flags, and changes nothing if it was already clear. |
| XaTag.SetTagPath | lib/xarray.c:195-200 | The upward loop of `xas_set_tag` sets the target bit. It runs past the top node exactly when every bit on the way was clear. An already-set bit makes it a no-op. No other class changes. |
| XaTag.ClearTagPath | lib/xarray.c:224-232 | The upward loop of `xas_clear_tag` clears the target bit. Running past the top node leaves that node with no bit of the class. An already-clear bit makes it a no-op. No other class changes. |
| XaTag.XasGetTag | lib/xarray.c:160-175 | Reads true only in a valid state. At the head it is the array flag; otherwise (node case) it is the current slot's bit. A state that has not been walked, is out of bounds or is in error reads false. |
| XaTag.XasSetTag | lib/xarray.c:187-204 | A state that has not been walked, or is in error, changes nothing. Otherwise `xas_get_tag` reads true afterwards, an already-set tag changes nothing, and other classes' flags are kept. |
| XaTag.XasClearTag | lib/xarray.c:216-236 | `xas_get_tag` reads false afterwards. A state that has not been walked, or an already-clear tag, changes nothing. Other classes' flags are kept. |
| XaTag.SetTagPathInv | lib/xarray.c:195-200 | Setting the bit of a stored entry keeps the upward tag invariant (a node's bit is set exactly when its child has some bit set). |
| XaTag.ClearTagPathInv | lib/xarray.c:224-232 | Clearing a bit keeps the upward tag invariant; when the loop passes the top node, that node had bits before and has none after. |
| XaTag.XasSetTagInv | lib/xarray.c:187-204 | `xas_set_tag` on a stored entry keeps the whole-array invariant, including each array flag mirroring the top node's bitmap. |
| XaTag.XasClearTagInv | lib/xarray.c:216-236 | `xas_clear_tag` on a non-node entry keeps the whole-array invariant. |
| XaTag.XaSetTag | lib/xarray.c:281-298 | `__xa_set_tag` on an index holding NULL changes nothing, and it keeps the tag invariant. |
| XaTag.XaClearTag | lib/xarray.c:301-316 | `__xa_clear_tag` on an index holding NULL changes nothing, and it keeps the tag invariant. |
| XaTag.GetTagWalk | lib/xarray.c:338-342 | The loop of `xa_get_tag` answers true only if the tag reads set where the state stands. |
| XaTag.XaGetTag | lib/xarray.c:331-348 | `xa_get_tag` is never true while the array flag of the class is clear, nor for an index the head does not reach. |
| XaTag.XaGetTagSpec | lib/xarray.c:331-348 | `xa_get_tag` is true exactly when the array flag and every bit on the way from the head to the slot `xa_load` reads are set. This needs no invariant. |
| XaTag.XaGetTagIsLeafBit | lib/xarray.c:331-348 | Under the tag invariant, `xa_get_tag` answers with the bit of the entry's own slot (the array flag for an entry in the head). |
| XaTag.NullHasNoTag | lib/test_xarray.c:138-139 | Under the invariant, an index holding NULL has no tag set. |
| XaTag.SetThenGet | lib/test_xarray.c:146-147 | Under the invariant, a tag set on a stored entry reads back as set. |
| XaTag.ClearThenGet | lib/xarray.c:369-384 | Clearing always succeeds: under the invariant the tag reads back clear, whatever is stored at the index. |
| XaTag.SetOnNullFails | lib/xarray.c:281-298 | Setting a tag on NULL does not succeed: it still reads clear. |
| XaTag.TagOpsKeepEntries | lib/xarray.c:291-316 | Setting or clearing a tag never changes what any index loads. |
| XaTag.OtherClassesUnchanged | lib/test_xarray.c:149-151 | Setting or clearing one class leaves every other class, at every index, as it was. |
| XaTag.OtherEntriesUnchanged | lib/test_xarray.c:149-150 | Setting or clearing a tag on one entry leaves that tag unchanged for any entry stored in a different slot. |
| XaExamples.TwoValuesLoad | lib/test_xarray.c:196-206 | A one-node tree holding values at 0 and 1 loads each of them. The model adds two cases the test does not check: NULL at 2, and out of bounds at 64. |
| XaExamples.OrderOneLoad | lib/test_xarray.c:281-284 | An order-1 entry loads from both indices it covers, and index 1 resolves to the canonical slot 0 with the index moved back to 0; index 2 is NULL. |
| XaExamples.BareHeadTags | lib/test_xarray.c:143-151 | Value at index 0 in the head: no tag before; set-then-get holds; index 1 and class 1 stay clear. |
| XaExamples.EmptyArrayTags | lib/test_xarray.c:138-141 | On an empty array the tag is clear, and setting it does not make it appear. |
| XaExamples.TwoValuesTags | lib/test_xarray.c:144-151 | In a node, tagging index 1 sets it and the array flag, leaves index 0 and class 2 clear, and clearing it again reads clear. |
| NumGen.IncGen | net/netfilter/nft_numgen.c:30-40 | One step changes only the counter. On a valid configuration the counter advances modulo the modulus, and the number returned is counter + offset, within [offset, offset + modulus - 1] with no 32-bit wrap. |
| NumGen.RunCounter | net/netfilter/nft_numgen.c:34-37 | On a valid configuration, k steps leave the configuration valid with the counter at (counter + k) mod modulus. |
| NumGen.RunSpec | net/netfilter/nft_numgen.c:30-40 | Over k steps the i-th number is offset + (counter + i + 1) mod modulus, and the counter ends at (counter + k) mod modulus. |
| NumGen.RunCycles | net/netfilter/nft_numgen.c:34-37 | After `modulus` steps the generator is back in its starting state. |
| NumGen.IncInit | net/netfilter/nft_numgen.c:81-102 | The offset attribute overrides the old offset. Modulus 0 gives -ERANGE. A range overflowing u32 gives -EOVERFLOW; in both error cases counter and register are untouched. Otherwise the register is stored, the counter becomes modulus - 1, the result is the register check, and the configuration is valid. |
| NumGen.IncInitThenRun | net/netfilter/nft_numgen.c:97-98 | After an accepted init the generator produces offset, offset + 1, ..., offset + modulus - 1 and starts again; the first number is the offset. |
| NumGen.RandomInit | net/netfilter/nft_numgen.c:208-230 | The same ERANGE and EOVERFLOW checks as the incremental init; on success the register is stored and the register check decides. |
| NumGen.IncMapInitAsWritten | net/netfilter/nft_numgen.c:104-121 | As written, the result is 0 exactly when the set lookup succeeds, whatever the base init returned. |
| NumGen.RandomMapInitAsWritten | net/netfilter/nft_numgen.c:232-247 | The same for the random map variant. |
| NumGen.MapInitAcceptsBadConfig | net/netfilter/nft_numgen.c:104-121 | As written, both map inits accept modulus 0; the incremental one accepts offset 0xffffffff with modulus 2, and the first number generated (0) lies below the offset. |
| NumGen.IncMapInit | net/netfilter/nft_numgen.c:104-121 | Corrected: a base-init error is returned as is; success exactly when both the base init and the lookup succeed; success leaves a valid configuration with the set recorded. |
| NumGen.RandomMapInit | net/netfilter/nft_numgen.c:232-247 | Corrected: as above for the random variant; success leaves a non-zero modulus whose range fits in u32. |
| NumGen.MapInitRejectsBadConfig | net/netfilter/nft_numgen.c:90-95 | The corrected map inits reject a zero modulus and an overflowing range with a negative errno. |
| NumGen.SelectOps | net/netfilter/nft_numgen.c:306-330 | A variant is chosen exactly when register, modulus and type are present and the type is incremental or random; otherwise -EINVAL. The map variant is chosen exactly when a set name is given; an incremental variant exactly when the type is incremental. |
| NumGen.IncOpsInit | net/netfilter/nft_numgen.c:274-288 | The init of either incremental ops table (with the corrected map init), on success, leaves a valid configuration whose counter is modulus - 1. |
| NumGen.SelectThenInit | net/netfilter/nft_numgen.c:306-330 | Attributes the selection accepts always carry a modulus, and an accepted incremental expression's first number is its offset. |
| VirtualPd.NotifySet | drivers/extcon/extcon-usbc-virtual-pd.c:87-112 | Polarity and speed are passed through. Exactly one of host and device is reported. Host for modes DFP and DP; DisplayPort for modes DP and DP_UFP; device otherwise. |
| VirtualPd.NotifyClr | drivers/extcon/extcon-usbc-virtual-pd.c:114-117 | Every role is off; polarity and speed are passed through. |
| VirtualPd.RoleTable | drivers/extcon/extcon-usbc-virtual-pd.c:92-109 | The role table row by row, with any unknown mode reported as UFP. A set notice always reports a connection and a clear notice never does. |
| VirtualPd.IrqDisable | drivers/extcon/extcon-usbc-virtual-pd.c:119-131 | The mask is held afterwards. Only when it was not held is the hardware disabled; otherwise a warning. |
| VirtualPd.IrqEnable | drivers/extcon/extcon-usbc-virtual-pd.c:133-143 | The mask is released afterwards. Only when it was held is the hardware enabled; otherwise nothing. |
| VirtualPd.IrqHandler | drivers/extcon/extcon-usbc-virtual-pd.c:176-187 | Records the edge level, schedules the work, then masks the interrupt (disabling the hardware unless already masked). |
| VirtualPd.DelayIrqWork | drivers/extcon/extcon-usbc-virtual-pd.c:145-174 | A bounce (level differs from the edge level) changes only the mask. Plugged with a low line unplugs: enable false, roles cleared. Unplugged with a high line plugs: enable true, roles set. Any other pair notifies nothing. The mask is always released, and the hardware is enabled exactly when it was masked. |
| VirtualPd.Probe | drivers/extcon/extcon-usbc-virtual-pd.c:229-235 | After the zeroing allocation only `enable` is set: unplugged, unmasked, mode 0. |
| VirtualPd.Init | drivers/extcon/extcon-usbc-virtual-pd.c:189-219 | Absent properties give false/false/0. A flag is on when its value is non-zero, and the mode keeps the value's low 8 bits. A non-zero detect level reports the roles and records plugged; a zero level reports nothing and keeps the plug state. |
| VirtualPd.StepChannels | drivers/extcon/extcon-usbc-virtual-pd.c:119-174 | One edge or work run switches the hardware interrupt and the cable report at most once each, always away from the recorded state, and the record follows. |
| VirtualPd.RunChannels | drivers/extcon/extcon-usbc-virtual-pd.c:119-187 | Over any run of edges and work, hardware disable/enable calls strictly alternate, as do connect/disconnect reports; the driver's mask and plug state equal what the last call or report left. |
| VirtualPd.ProbeInitRun | drivers/extcon/extcon-usbc-virtual-pd.c:189-235 | After probe and init, the plug state is 1 exactly when the detect level was non-zero and matches what was reported; from then on reports alternate starting from that state, and interrupt calls start with a disable. |

## Left out

- RCU, `xa_lock`, and the retry loop of `xa_load` (lib/xarray.c:271-275): the model is single-threaded, so a walk never meets a retired node. Trees hold no retry entries, and `XaWalk.XaLoad` is one pass of `xas_load`.
- `xas_reload`, `xas_valid`, `xas_invalid`, `xas_error`, `xa_head`, `xa_entry`, `xa_parent_locked` and the internal-entry encodings (sibling, node, retry) are defined in kernel headers this model does not cover. Their behaviour is taken from their doc comments and from how lib/xarray.c uses them: reload returns the entry where a walked state stands. Internal entries are explicit `Entry` variants, not encoded words.
- `xa_set_tag` and `xa_clear_tag` (lib/xarray.c:361-384) only take the lock around `__xa_set_tag`/`__xa_clear_tag`, so `XaTag.XaSetTag`/`XaTag.XaClearTag` model both.
- `xa_store`, `xa_erase`, multi-order store, `xas_next`/`xas_find`, destroy and shrink are exercised by the tests but are implemented outside the walk and tag code modelled here. The example trees are built directly instead.
- XA_CHUNK_SHIFT is a configuration constant defined in a header this model does not cover. The chunk width is fixed at its usual 6 bits (64 slots), which matches the test boundaries at 64 and 4096.
- XaNode.MoveIndex: a forward move whose word does not fit in 64 bits is only reduced modulo 2^64, and the contract says nothing more about it. That happens only at a top node of shift 60 with a target slot of 16 or more, where the source's shift also drops bits.
- Parent pointers and `node->offset` are replaced by the path of offsets from the head node.
- The random generator (`nft_ng_random_gen`, per-CPU `prandom`, `reciprocal_scale`) and the two eval functions' set lookups are left out: they depend on the per-CPU random state and on the set lookup, which this model does not cover.
- `nft_parse_register`, `nft_validate_register_store` and `nft_set_lookup_global` become parameters of the init functions: a register number, the register check's result, and a lookup outcome.
- NumGen.IncGen: the compare-and-swap retry loop is one sequential step, because concurrency is out of scope.
- Netlink attribute parsing, the dump functions and module registration of the number generator are output plumbing.
- The extcon framework calls, GPIO reads, IRQ request, delayed-work timing, spinlocks, PM hooks and the probe error paths are left out. The detect level is an input, and the framework calls are `Effect` values.
- VirtualPd.Vpd: `enable_irq` is an `int` in the source but is only ever set to 0 or 1, so it is a boolean here.
- `lib/xarray.c:387-463` (`xa_dump*`) is debug output.

## Findings

| source | as written | input that shows it | evidently intended | confidence | as-written member | corrected member |
|---|---|---|---|---|---|---|
| net/netfilter/nft_numgen.c:111-120 | `nft_ng_inc_map_init` calls `nft_ng_inc_init` and discards its return value; only a failed set lookup fails the map init | modulus 0 with a set that exists returns 0; offset 0xffffffff, modulus 2 returns 0 and then generates 0, below the offset | return the base init's error before looking up the set | high (not executed) | NumGen.MapInitAcceptsBadConfig | NumGen.IncMapInit |
| net/netfilter/nft_numgen.c:238-246 | `nft_ng_random_map_init` discards the return value of `nft_ng_random_init` in the same way | modulus 0 with a set that exists returns 0 | return the base init's error before looking up the set | high (not executed) | NumGen.RandomMapInitAsWritten | NumGen.RandomMapInit |
