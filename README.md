# Aument, modelled in Dafny

Aument is a small scripting language: a lexer and single-pass parser turn
source into register bytecode, an interpreter runs that bytecode over
NaN-boxed values and reference-counted objects, and a standard library of C
functions works on those values. This project models the sequential core of
that system and proves what each part promises:

- hashing and the symbol tables: FNV-1a and the integer mixes, the Robin
  Hood string-keyed map of symbols, the Robin Hood value-keyed dictionary,
  the older chained map of local variables, and the growable array they
  are built on;
- the front end: the tokenizer with its lookahead buffer, the register
  allocator, bytecode emission and back-patching, operator-precedence
  expression parsing, literal decoding, the jump layout of `if` and
  `while`, name resolution with forward declarations, and the parser's
  entry points;
- runtime values: the NaN-boxed encoding, the int/bool/string operators,
  runtime strings, the string builder, arrays, tuples, class objects and
  the reference-counting allocator;
- calls and modules: function arity, importer stubs and multi-dispatch,
  the per-thread constant cache and module registry, import path
  resolution and error-position lookup;
- the standard library's string, type-conversion and array functions;
- the fixture checker generator: decoding of expected-output lines and the
  per-fixture cursor of the generated checker.

Parts of the C code that change state in place (tables, buffers, counters,
the lexer and parser state) are Dafny classes and methods whose
postconditions tie the new state to specification functions; the pure parts
(hashes, value operators, decoders) are functions. Where the code does
something its authors evidently did not intend, the model keeps the code as
written beside a corrected version, and the rest of the model uses the
corrected one (see "## Findings").

One module per file:

| module | file | models |
|---|---|---|
| Wrappers | wrappers.dfy | Option, Result and the byte type |
| Arith | arith.dfy | src/platform/arithmetic.h |
| Hash | hash.dfy | src/core/hash.c |
| RobinHood | robinhood.dfy | the ring arithmetic shared by both Robin Hood tables |
| HmVarsTable, HmVars | hmvars_table.dfy, hmvars.dfy | src/core/hm_vars.c |
| DictTable, Dict | dict_table.dfy, dict.dfy | src/core/rt/au_dict.c |
| BcVars | bcvars.dfy | src/core/bc_vars.c |
| GrowArray | growarray.dfy | src/core/array.h |
| Utf8 | utf8.dfy | src/core/utf8.h |
| Lexer | lexer.dfy | src/core/parser/lexer.c |
| Regs | regs.dfy | src/core/parser/impl/regs.c |
| BcEmit | bcemit.dfy | src/core/parser/impl/bc.c |
| Expr | expr.dfy | src/core/parser/impl/expr.c |
| Stmt | stmt.dfy | src/core/parser/impl/stmt.c |
| Resolve | resolve.dfy | src/core/parser/impl/resolve.c |
| Parse | parser.dfy | src/core/parser/impl/parser.c |
| Value, NanBox | value.dfy, nanbox.dfy | src/core/rt/value/main.h |
| AuString | austring.dfy | src/core/rt/au_string.h, src/core/rt/au_string.c |
| StringBuilder | strbuilder.dfy | src/lib/string_builder.h |
| Objects | objects.dfy | src/core/rt/au_array.c, au_tuple.c, au_class.c, value/ref.h |
| Malloc | malloc.dfy | src/core/rt/malloc/static.c |
| Fns | fn.dfy | src/core/fn/main.h, src/core/fn/call.h |
| ThreadLocal | tl.dfy | src/core/vm/tl.c |
| Modules | module.dfy | src/core/vm/module.c |
| Exception | exception.dfy | src/core/vm/exception.c |
| StdStr | stdlib_str.dfy | src/stdlib/str.c |
| StdTypes | stdlib_types.dfy | src/stdlib/types.c |
| StdArray | stdlib_array.dfy | src/stdlib/array.c |
| GenTests | gen_tests.dfy | gen_tests.py |

C integers are modelled at their width: int32 arithmetic wraps through
`Arith`, hashes are `bv32`/`bv64`, and sizes carry the bounds the C types
give them where the code relies on them.

## Model

| member | source | states |
|---|---|---|
| Arith.Wrap | src/platform/arithmetic.h:11-27 | the int32 a 32-bit register holds for x: in range, congruent to x modulo 2^32, and x itself when x fits |
| Arith.WrapUnique | src/platform/arithmetic.h:11-27 | the wrapped value is the only int32 congruent to x modulo 2^32 |
| Arith.IAddWrap | src/platform/arithmetic.h:11-15 | a + b modulo 2^32 as a signed int32, never trapping; the exact sum when it fits |
| Arith.ISubWrap | src/platform/arithmetic.h:17-21 | a - b modulo 2^32 as a signed int32, never trapping; the exact difference when it fits |
| Arith.IMulWrap | src/platform/arithmetic.h:23-27 | a * b modulo 2^32 as a signed int32, never trapping; the exact product when it fits |
| Arith.AddWrapsAtMax | src/platform/arithmetic.h:11-15 | INT32_MAX + 1 wraps to INT32_MIN |
| Arith.SubIsAddNeg | src/platform/arithmetic.h:11-21 | wrapped subtraction equals wrapped addition of the wrapped negation |
| Hash.AuHash | src/core/hash.c:13-21 | the hash of the empty input is the offset basis 2166136261 |
| Hash.AuHashSnoc | src/core/hash.c:16-19 | each byte is xored into the hash, which is then multiplied by 16777619 modulo 2^32 |
| Hash.FnvFromSnoc | src/core/hash.c:16-19 | running the loop over s + [b] is running it over s and then one step on b |
| Hash.AuHashAppend | src/core/hash.c:13-21 | hashing a concatenation continues the loop from the hash of the first part |
| AuString.Memcmp | src/core/rt/au_string.h:53 | the sign of memcmp (as -1, 0 or 1): 0 exactly when the runs are equal |
| AuString.Cmp | src/core/rt/au_string.h:46-55 | the sign of au_string_cmp (as -1, 0 or 1): 0 exactly when the strings have the same length and bytes |
| AuString.CmpLength | src/core/rt/au_string.h:48-51 | the longer string is greater and the shorter less, whatever the bytes |
| AuString.MemcmpAntisym | src/core/rt/au_string.h:53 | swapping the runs negates memcmp's sign |
| AuString.CmpAntisym | src/core/rt/au_string.h:46-55 | swapping the operands negates the comparison |
| AuString.MemcmpTrans | src/core/rt/au_string.h:53 | memcmp's order is transitive |
| AuString.CmpTrans | src/core/rt/au_string.h:46-55 | the order au_string_cmp defines is transitive |
| AuString.Strlen | src/core/rt/au_string.h:65 | strlen is the offset of the first zero byte: a zero there and none before |
| AuString.CmpCstr | src/core/rt/au_string.h:64-73 | au_string_cmp_cstr is au_string_cmp against the bytes before the terminator, and 0 exactly when they are equal |
| AuString.ToUint32 | src/core/rt/au_string.c:16 | a size_t stored into the uint32 length is at most UINT32_MAX and unchanged when it fits |
| AuString.String.FromConst | src/core/rt/au_string.c:13-20 | a fresh string with rc 1 holding all the given bytes; its len is the given length truncated to 32 bits, so it reads back the given bytes exactly when they fit |
| AuString.String.Alloc | src/core/rt/au_string.c:25-28 | the object au_string_add allocates is fresh, with rc 1 and room for exactly len bytes |
| AuString.AddLenAsWritten | src/core/rt/au_string.c:24 | the length au_string_add computes is the 32-bit sum: the true sum or the true sum less 2^32 |
| AuString.AddLenWraps | src/core/rt/au_string.c:24-29 | lengths 2^31 and 2^31 give length 0, and some pair gives a length shorter than the left operand, so the first copy overruns the allocation |
| AuString.Add | src/core/rt/au_string.c:22-32 | reports overflow exactly when left.len + right.len exceeds UINT32_MAX; otherwise a fresh string with rc 1 and the source's length, holding left's bytes followed by right's; the operands are not written |
| Value.Tag | src/core/rt/value/main.h:21-33 | enum au_vtype: the tag of each variant is 0..6, or 15 for the error value |
| Value.FalsyKinds | src/core/rt/value/main.h:308-325 | none, functions, structs, the error value, NaNs and negative doubles are never truthy |
| Value.Add | src/core/rt/value/main.h:327-364 | the error value exactly when the operands are neither two ints nor two strings; int + int wraps modulo 2^32; str + str concatenates |
| Value.Sub | src/core/rt/value/main.h:366-397 | the error value exactly when the operands are not two ints; int - int wraps modulo 2^32 |
| Value.Mul | src/core/rt/value/main.h:399-430 | the error value exactly when the operands are not two ints; int * int wraps modulo 2^32 |
| Value.SubIsAddNegated | src/core/rt/value/main.h:327-397 | subtracting an int is adding its wrapped negation |
| Value.Rem | src/core/rt/value/main.h:471 | C's int %: smaller in magnitude than the divisor, zero or of the dividend's sign, and a == b * (a / b) + a % b with / truncating |
| Value.Mod | src/core/rt/value/main.h:465-477 | a trap exactly when two ints meet a zero divisor or INT32_MIN % -1; otherwise the error value exactly when the operands are not two ints, and C's truncating remainder when they are |
| Value.Compare | src/core/rt/value/main.h:479-507 | lt, gt, leq and geq give a bool, false across types and for every type other than int and str |
| Value.CompareFlip | src/core/rt/value/main.h:479-507 | a < b exactly when b > a, and a <= b exactly when b >= a |
| Value.LeqIsLtOrEq | src/core/rt/value/main.h:479-531 | for ints and strings, <= holds exactly when < or == holds |
| Value.LtTrans | src/core/rt/value/main.h:479-507 | < is transitive on ints and on strings |
| Value.Eq | src/core/rt/value/main.h:510-531 | a bool that is true exactly when both values are ints, bools or strings and are equal; false across types and for every other type |
| Value.Neq | src/core/rt/value/main.h:532-553 | a bool that is the negation of au_value_eq, true across types |
| NanBox.GetType | src/core/rt/value/main.h:91-99 | the type tag is below 16 |
| NanBox.GetTypeBoxed | src/core/rt/value/main.h:80-99 | AU_REPR_BOXED(tag, p) reads back tag for every tag 1..15 |
| NanBox.IntRoundTrip | src/core/rt/value/main.h:117-126 | get_type(int(n)) == INT and get_int(int(n)) == n |
| NanBox.IntLowBits | src/core/rt/value/main.h:117-121 | the low 32 bits of int(n) are n's two's-complement bits |
| NanBox.GetBool | src/core/rt/value/main.h:153-157 | get_bool returns 0 or 1 |
| NanBox.BoolRoundTrip | src/core/rt/value/main.h:148-157 | bool(n) has type BOOL and reads back as n != 0 |
| NanBox.PtrRoundTrip | src/core/rt/value/main.h:159-195 | fn, str and struct values keep their tag and their 48-bit pointer |
| NanBox.DoubleType | src/core/rt/value/main.h:128-141 | a stored double has type DOUBLE; its bits are kept unless they are a NaN, which becomes the canonical NaN |
| NanBox.ErrorTypeAsWritten | src/core/rt/value/main.h:85-109 | the error pattern 0x7ff0ffffffffffff has tag bits 0, so get_type reports DOUBLE rather than ERROR |
| NanBox.ErrorTypeTagged | src/core/rt/value/main.h:85-99 | the pattern with tag 15, 0x7fffffffffffffff, reads back as ERROR |
| NanBox.DecodeEncode | src/core/rt/value/main.h:91-195 | decoding an encoded value gives the value back |
| NanBox.EncodeTag | src/core/rt/value/main.h:91-195 | the type tag of an encoded value is its variant's tag |
| RobinHood.Approx85 | src/core/hm_vars.c:52 | APPROX_85_PERCENT(x) lies below x for every positive x, is at most 85% of x, and from 1024 buckets on at least 84% |
| RobinHood.Approx40 | src/core/hm_vars.c:53 | APPROX_40_PERCENT(x) is at most half of x, at most 40% of it, and from 1024 buckets on at least 39% |
| RobinHood.Dist | src/core/hm_vars.c:62 | the ring distance from one slot forward to another is below the size, and that many steps from the first reach the second |
| RobinHood.GrowSize | src/core/hm_vars.c:277-278 | the grown size min(2*size, size + MAX_GROWTH_STEP) exceeds a positive size and is at most double it and at most size + 2^20 |
| RobinHood.Home | src/core/hm_vars.c:78 | the home bucket hash % size is a bucket of the table |
| RobinHood.Succ | src/core/hm_vars.c:109 | the next probe position is (i + 1) % size |
| RobinHood.AtSucc | src/core/hm_vars.c:106-110 | probing t + 1 steps from the home bucket lands one bucket after probing t steps |
| RobinHood.Chain | src/core/hm_vars.c:59-65 | with psl equal to the distance from home and no bucket richer than its predecessor allows, walking back m <= psl buckets from an occupied bucket finds an occupied bucket with psl at least psl - m |
| RobinHood.ProbeStop | src/core/hm_vars.c:96-105 | once the probe for a hash reaches, after n steps, an empty bucket or one with psl below n, every bucket holding that hash has psl below n |
| RobinHood.Fresh | src/core/hm_vars.c:231-236 | a fresh all-empty bucket array satisfies the psl and Robin Hood invariants |
| RobinHood.Place | src/core/hm_vars.c:202-209 | storing the entry in hand into an empty bucket, or over one with smaller psl, keeps both invariants |
| RobinHood.Evict | src/core/hm_vars.c:179-194 | when the entry in hand has a larger psl, it takes the bucket and the evicted entry continues from the next bucket with psl + 1 |
| RobinHood.Skip | src/core/hm_vars.c:194-199 | passing a bucket whose psl is not smaller, the entry in hand continues with psl + 1 while an empty bucket lies ahead |
| RobinHood.BelowSizeFull | src/core/hm_vars.c:161-199 | a probe whose psl reaches the table size has seen only occupied buckets, so a table with a free bucket stops the probe earlier |
| RobinHood.CountUpdate | src/core/hm_vars.c:209-210 | overwriting one bucket changes the number of occupied buckets by the occupancy difference, which is how nitems follows the stores |
| HmVarsTable.AppendKeepsKeys | src/core/hm_vars.c:113-124 | appending a new key's bytes to key_bytes leaves every stored key unchanged |
| HmVarsTable.StoreNew | src/core/hm_vars.c:202-210 | a new key stored in a free bucket at its probe position yields a table holding the map with that key added |
| HmVarsTable.SwapNew | src/core/hm_vars.c:179-194 | a new key swapped into a richer bucket yields the displacement state in which the evicted key is carried on |
| HmVarsTable.DisplaceSwap | src/core/hm_vars.c:179-199 | each swap of the displacement loop keeps the displacement state and moves strictly nearer the free bucket ahead |
| HmVarsTable.DisplaceSkip | src/core/hm_vars.c:194-199 | each skip of the displacement loop keeps the displacement state and moves strictly nearer the free bucket ahead |
| HmVarsTable.DisplaceLast | src/core/hm_vars.c:202-209 | storing the carried entry into the free bucket ends with a table that represents the map |
| HmVarsTable.ProbeMatch | src/core/hm_vars.c:91-94 | a bucket whose key bytes equal the key holds the key's value, at its recorded position |
| HmVarsTable.ProbeMiss | src/core/hm_vars.c:103-105 | reaching an empty bucket or one with psl below the probe length proves the key absent |
| HmVarsTable.ProbeNext | src/core/hm_vars.c:106-110 | a mismatching occupied bucket lets the probe go on one step with the key still not found before it |
| HmVarsTable.MovedCount | src/core/hm_vars.c:240-249 | the keys held in the first n buckets number exactly the occupied buckets among them |
| HmVarsTable.MovedAll | src/core/hm_vars.c:240-249 | the keys held in all the buckets are the whole map, so reinserting every non-empty bucket reinserts every key |
| HmVarsTable.FreshOk | src/core/hm_vars.c:231-236 | a fresh array of empty buckets represents the empty map |
| HmVars.Vars.constructor | src/core/hm_vars.c:293-296 | a zeroed structure is uninitialized and empty |
| HmVars.Vars.Get | src/core/hm_vars.c:72-111 | fatal on an uninitialized map; otherwise the stored value for a present key and NULL for an absent one |
| HmVars.Vars.InitializeEntry | src/core/hm_vars.c:113-124 | a new key's bytes are appended to key_bytes once, and the entry refers to them |
| HmVars.Vars.Probe | src/core/hm_vars.c:160-200 | the probe finds the key's bucket exactly when the key is present, and otherwise stops at the first empty or richer bucket on its probe sequence |
| HmVars.Vars.Insert | src/core/hm_vars.c:129-214 | hm_insert returns the current value of a present key, changing nothing; a new key is added with its value, its bytes appended once when it comes without a key index |
| HmVars.Vars.InsertAt | src/core/hm_vars.c:179-210 | a new key placed at the bucket the probe stopped at yields a valid table holding the map with the key added |
| HmVars.Vars.Displace | src/core/hm_vars.c:161-209 | the displacement loop carries evicted entries until a free bucket and ends with a valid table for the map |
| HmVars.Vars.Store | src/core/hm_vars.c:209-210 | the final store into the free bucket, with nitems incremented, leaves a valid table |
| HmVars.Vars.Resize | src/core/hm_vars.c:216-254 | fails, changing nothing, exactly when newsize exceeds UINT_MAX (allocation is taken to succeed); otherwise fresh buckets of newsize holding the same map and the same key bytes |
| HmVars.Vars.Reset | src/core/hm_vars.c:234-238 | the resized table starts with newsize empty buckets and nitems 0, key bytes kept |
| HmVars.Vars.Init | src/core/hm_vars.c:293-302 | initializes a zeroed map to one empty bucket and no keys; an initialized map is left alone |
| HmVars.Vars.Add | src/core/hm_vars.c:262-285 | initializes the map if needed; grows when nitems exceeds 85% of size, and returns NULL, changing nothing, when the growth fails; a present key returns its value and changes nothing; a new key is added, its bytes appended once |
| DictTable.HashedSet | src/core/rt/au_dict.c:210-213 | every occupied bucket keeps compute_hash of its key when a bucket carrying its own key's hash is stored |
| DictTable.ProbeMatch | src/core/rt/au_dict.c:173-176 | a bucket whose key compares equal holds that key's value, at its recorded position |
| DictTable.ProbeMiss | src/core/rt/au_dict.c:185-187 | reaching an empty bucket or one with psl below the probe length proves the key absent |
| DictTable.ProbeNext | src/core/rt/au_dict.c:188-192 | a mismatching occupied bucket lets the probe go on with the key still not found before it |
| DictTable.StoreNew | src/core/rt/au_dict.c:264-268 | a new entry stored in a free bucket at its probe position yields a table holding the map with the entry (an entry under a key that never compares equal is counted as junk) |
| DictTable.SwapNew | src/core/rt/au_dict.c:245-256 | a new entry swapped into a richer bucket yields the displacement state carrying the evicted entry |
| DictTable.DisplaceSwap | src/core/rt/au_dict.c:245-261 | each swap of the displacement loop keeps the displacement state and moves strictly nearer the free bucket ahead |
| DictTable.DisplaceSkip | src/core/rt/au_dict.c:256-261 | each skip of the displacement loop keeps the displacement state and moves strictly nearer the free bucket ahead |
| DictTable.DisplaceLast | src/core/rt/au_dict.c:264-268 | storing the carried entry into the free bucket ends with a table that represents the map |
| DictTable.Overwrite | src/core/rt/au_dict.c:234-240 | overwriting the value of a present key gives the map with that key's value replaced, nothing else changed |
| DictTable.MovedCount | src/core/rt/au_dict.c:305-314 | the keys held in the first n buckets, plus the junk entries among them, number the occupied buckets |
| DictTable.MovedAll | src/core/rt/au_dict.c:305-314 | the entries held in all the buckets are the whole map and all the junk, so reinserting every non-empty bucket reinserts everything |
| DictTable.FreshOk | src/core/rt/au_dict.c:294-301 | a fresh array of empty buckets represents the empty map with no junk |
| DictTable.RemoveKey | src/core/rt/au_dict.c:382-385 | clearing a found key's bucket leaves the map without that key, one entry fewer, with the backward shift still to do |
| DictTable.ShiftStep | src/core/rt/au_dict.c:391-411 | moving the next bucket back into the hole with psl - 1 keeps the shifting state and lowers the total psl |
| DictTable.ShiftHoled | src/core/rt/au_dict.c:404-410 | after one shift the hole is at the next bucket and the psl invariants hold around it |
| DictTable.ShiftDone | src/core/rt/au_dict.c:404-406 | the shift stops at an empty bucket or a bucket with psl 0, leaving a table that represents the map |
| Dict.ThresholdsAsWrittenWrap | src/core/rt/au_dict.c:77-78 | the uint32_t thresholds agree with the wide ones below 4,936,745 buckets, but at 5,242,880 buckets the 85% threshold falls to 260,096 and at 16,777,216 the 40% one to 2,506,752 |
| Dict.GrowSizeAsWrittenShrinks | src/core/rt/au_dict.c:339-340 | from 2^31 buckets on the uint32_t doubling wraps and the table would shrink, to 0 at exactly 2^31, while the intended size grows |
| Dict.Dict.constructor | src/core/rt/au_dict.c:477-486 | a new dict has one empty bucket, minsize 1 and no entries |
| Dict.Dict.Get | src/core/rt/au_dict.c:492-499 | found exactly when the key is present with a value other than the empty marker, and then the stored value; a key that never compares equal is never found |
| Dict.Dict.Probe | src/core/rt/au_dict.c:225-262 | the insert probe finds the key's bucket exactly when the key is present, and otherwise stops at the first empty or richer bucket |
| Dict.Dict.Insert | src/core/rt/au_dict.c:198-271 | a present key has its value overwritten; an absent key is added with its value; an entry under a key that never compares equal is stored and counted but not retrievable |
| Dict.Dict.InsertAt | src/core/rt/au_dict.c:245-268 | a new entry placed where the probe stopped yields a valid table holding the map with the entry |
| Dict.Dict.Displace | src/core/rt/au_dict.c:226-268 | the displacement loop carries evicted entries to a free bucket and ends with a valid table |
| Dict.Dict.Store | src/core/rt/au_dict.c:264-268 | the final store, with nitems incremented, leaves a valid table |
| Dict.Dict.Resize | src/core/rt/au_dict.c:273-319 | fails, changing nothing, exactly when newsize exceeds UINT32_MAX (allocation is taken to succeed); otherwise fresh buckets of newsize holding the same entries |
| Dict.Dict.Reinsert | src/core/rt/au_dict.c:305-314 | one turn of the resize loop reinserts the old bucket's entry, so the new table holds the entries of the old buckets up to it |
| Dict.Dict.Reset | src/core/rt/au_dict.c:294-301 | the resized table starts with newsize empty buckets and nitems 0 |
| Dict.Dict.Put | src/core/rt/au_dict.c:327-347 | fails exactly when the table holds more items than the intended 85% threshold and the grown size does not fit in 32 bits; otherwise the key is set to the value (the source's wrapped threshold is the Findings row for au_dict.c:329) |
| Dict.Dict.Set | src/core/rt/au_dict.c:501-505 | put, returning 1 on success, with the key set to the value |
| Dict.Dict.Len | src/core/rt/au_dict.c:507-509 | the item count cast to int32_t, which equals the number of distinct keys plus the entries under keys that never compare equal |
| Dict.Dict.Del | src/core/rt/au_dict.c:354-422 | a present key is removed and its value returned; an absent key returns the empty marker and changes nothing; the table stays valid through the backward shift and the shrink below the intended 40% threshold (the source's wrapped threshold is the Findings row for au_dict.c:356) |
| Dict.Dict.Find | src/core/rt/au_dict.c:362-377 | the delete probe finds the key's bucket exactly when the key is present |
| Dict.Dict.RemoveAt | src/core/rt/au_dict.c:382-411 | removing the found bucket and shifting its followers back leaves a valid table without the key |
| Dict.Dict.ShiftBack | src/core/rt/au_dict.c:391-411 | the backward-shift loop ends with a valid table for the same map |
| BcVars.Index | src/core/bc_vars.c:70 | the bucket index of a hash is below the number of buckets |
| BcVars.Push | src/core/bc_vars.c:110-119 | appending an element keeps the earlier elements, and the capacity becomes 1 from 0 or doubles when full, never below the length |
| BcVars.EmptyOk | src/core/bc_vars.c:35-36 | a table of empty buckets represents the empty map |
| BcVars.NonEmpty | src/core/bc_vars.c:69 | a table holding a key has at least one bucket |
| BcVars.KeyGrow | src/core/bc_vars.c:84-87 | appending to the name buffer leaves the key of every stored element unchanged |
| BcVars.NamesGrow | src/core/bc_vars.c:84-87 | appending to the name buffer keeps the table representing the same map |
| BcVars.PushOk | src/core/bc_vars.c:108-119 | pushing an element into the bucket of its hash keeps that bucket well formed and the table valid for the map with the element's key |
| BcVars.PushEls | src/core/bc_vars.c:108-119 | after the push every bucket holds only elements of the extended map, each in the bucket of its hash |
| BcVars.ElOkUpdate | src/core/bc_vars.c:119 | an element valid for a map stays valid when the map gains a key it agrees on |
| BcVars.PushLocated | src/core/bc_vars.c:108-119 | after the push every key of the extended map is found at its recorded position |
| BcVars.BucketCap | src/core/bc_vars.c:113 | in a valid table no bucket holds more than its capacity |
| BcVars.AppendOk | src/core/bc_vars.c:84-121 | appending a new key's name and pushing its element gives a valid table for the map with the key |
| BcVars.Scan | src/core/bc_vars.c:134-141 | the scan of a bucket finds an element with the key, or proves that no element has it |
| BcVars.LookupOk | src/core/bc_vars.c:125-142 | in a valid table a key is in the map exactly when the bucket of its hash holds an element with that key, whose value is the key's value |
| BcVars.MapAdd | src/core/bc_vars.c:121 | adding an absent key adds one entry |
| BcVars.MoveStep | src/core/bc_vars.c:39-52 | moving one element of an old bucket into the new table keeps the rehash progress invariant |
| BcVars.VisitStep | src/core/bc_vars.c:39-40 | each visited element's key is among the moved keys |
| BcVars.BucketDone | src/core/bc_vars.c:37-53 | finishing an old bucket moves the rehash on to the next bucket |
| BcVars.AllMoved | src/core/bc_vars.c:37-54 | once every old bucket is done, the moved entries are exactly the map |
| BcVars.Spread | src/core/bc_vars.c:33-54 | rehash_table's loops build a fresh table of twice as many buckets that represents the same map |
| BcVars.SpreadBucket | src/core/bc_vars.c:39-53 | the inner loop moves every element of one old bucket into its bucket in the new table |
| BcVars.Vars.constructor | src/core/bc_vars.c:15-21 | a new table has no buckets, no names and represents the empty map |
| BcVars.Vars.Get | src/core/bc_vars.c:125-142 | finds a value exactly when the key is present, and that value is the key's; a table without buckets finds nothing |
| BcVars.Vars.Rehash | src/core/bc_vars.c:33-63 | the bucket array is replaced by a fresh one twice as long, and the map, the count and the names are unchanged |
| BcVars.Vars.Add | src/core/bc_vars.c:65-123 | a present key returns its value and changes nothing; an absent key returns nothing, is added with the value, the count grows by one and the name is appended |
| BcVars.Vars.Grow | src/core/bc_vars.c:79-81 | rehashes until the count is at most three quarters of the buckets, keeping the map |
| BcVars.Vars.Append | src/core/bc_vars.c:84-121 | an absent key is added with its value, one more entry and its name appended |
| BcVars.Vars.PushNew | src/core/bc_vars.c:105-121 | with buckets present, the new element goes into the bucket of its hash and the map gains the key |
| BcVars.Vars.SetBucket | src/core/bc_vars.c:109-119 | replaces one bucket and leaves the others |
| BcVars.Vars.FirstBucket | src/core/bc_vars.c:96-98 | the first insertion allocates a single bucket, keeping the map |
| GrowArray.Array.constructor | src/core/array.h:17-22 | an array starts with no elements and no capacity |
| GrowArray.Array.WithCapacity | src/core/array.h:17-22 | an array with capacity reserved starts with no elements |
| GrowArray.Array.Add | src/core/array.h:23-34 | the element is appended; capacity becomes IN_CAP from 0, doubles when full, and is otherwise unchanged |
| GrowArray.Array.At | src/core/array.h:35-40 | the element at an index below the length, and the fatal index error with the index and length otherwise |
| GrowArray.Array.AtPtr | src/core/array.h:50-55 | the slot of an index below the length, and the fatal index error otherwise |
| GrowArray.Array.Set | src/core/array.h:41-46 | an index below the length replaces that element alone; any other index is the fatal index error and changes nothing |
| Utf8.CharSize | src/core/utf8.h:18-42 | the length of the character a lead byte starts: 4 for 11110xxx, 3 for 1110xxxx, 2 for 110xxxxx, otherwise 1 |
| Utf8.SignedChar | src/core/utf8.h:40 | a char read as a signed byte, equal to the byte below 0x80 |
| Utf8.Codepoint | src/core/utf8.h:12-45 | decoding fails exactly on empty input or input shorter than the lead byte announces, and otherwise consumes that many bytes |
| Utf8.Encode | src/core/utf8.h:12-45 | the UTF-8 encoding of a code point takes one to four bytes |
| Utf8.Decode2 | src/core/utf8.h:32-37 | a two-byte encoding decodes back to its code point |
| Utf8.Decode3 | src/core/utf8.h:25-31 | a three-byte encoding decodes back to its code point |
| Utf8.Decode4 | src/core/utf8.h:18-24 | a four-byte encoding decodes back to its code point |
| Utf8.DecodeEncode | src/core/utf8.h:12-45 | utf8_codepoint decodes the encoding of every code point back to it, whatever follows |
| Utf8.Next | src/core/utf8.h:47-79 | fails exactly when the character at the start runs past the end, and otherwise steps over its lead byte's length |
| Utf8.NextAgreesWithCodepoint | src/core/utf8.h:12-79 | utf8_next succeeds exactly when utf8_codepoint does, with the same length |
| Utf8.WalkAbove | src/core/utf8.h:102 | the character starts visited from p lie between p and the end |
| Utf8.WalkNext | src/core/utf8.h:102 | the walk from a character start continues at the next character start |
| Utf8.WalkAscii | src/core/utf8.h:102 | on ASCII text every offset is a character start |
| Utf8.Str | src/core/utf8.h:81-110 | the needle search with the needle restarted at each candidate: the first character start where the needle occurs, or none when it occurs at no character start |
| Utf8.SearchedStep | src/core/utf8.h:97-105 | a miss moves the search to the next character start, all earlier starts tried |
| Utf8.SearchedFound | src/core/utf8.h:93-96 | a match found is on the walk and no earlier start matches |
| Utf8.SearchedLast | src/core/utf8.h:102-104 | a miss at the last character start means no start matches |
| Utf8.SearchedAll | src/core/utf8.h:85-109 | reaching the end of the haystack means no start matches |
| Utf8.WalkBefore | src/core/utf8.h:85-96 | every start before the current one was tried, and the current one is on the walk |
| Utf8.StrAscii | src/core/utf8.h:81-110 | on ASCII text the search finds the least offset of the needle, or none when it does not occur |
| Utf8.Advance | src/core/utf8.h:88-91 | the matching run advances both positions equally over equal bytes and stops at a mismatch or an end |
| Utf8.StrAsWrittenMissesRestart | src/core/utf8.h:81-110 | as written, haystack "aab" and needle "ab" report offset 2, where the needle is not, and not its occurrence at 1 |
| StringBuilder.Builder.Init | src/lib/string_builder.h:19-26 | a new builder holds a fresh string with room for one byte and nothing written |
| StringBuilder.Builder.Add | src/lib/string_builder.h:38-47 | the byte is appended at pos, with no bound on pos; the capacity doubles when full and is otherwise unchanged |
| StringBuilder.Builder.IntoString | src/lib/string_builder.h:49-55 | the builder's string is handed over with its length set to the bytes written truncated to 32 bits, reading back exactly those bytes when they fit, and the builder lets go of it |
| Lexer.RunEnd | src/core/parser/lexer.c:151-154 | the end of the run of characters of one class from p: every character before it is in the class and the one at it is not |
| Lexer.LineEnd | src/core/parser/lexer.c:93-94 | the end of a line comment: no newline before it, and a newline or the end of input at it |
| Lexer.SkipTrivia | src/core/parser/lexer.c:87-98 | the skip loop stops at the end of input or at a character that is neither white space nor the start of a // comment |
| Lexer.StrBody | src/core/parser/lexer.c:108-127 | a string body ends at the end of input or just after the closing quote, with the counted length equal to the characters consumed before it; it fails only on a backslash as the last character |
| Lexer.OpMatch | src/core/parser/lexer.c:227-260 | a two-character operator is taken whenever the two characters form one; a one-character operator only otherwise |
| Lexer.LexBounds | src/core/parser/lexer.c:64-278 | a scan ends between its start and the end of input, and its token's text lies within the input |
| Lexer.EofIff | src/core/parser/lexer.c:99-103 | the scan yields EOF exactly when only trivia is left or the next character is NUL |
| Lexer.StringToken | src/core/parser/lexer.c:107-141 | a string token starts just after its opening quote and ends at the end of input or before the matching quote; a char string has a 'c' right after the quote |
| Lexer.EscapeConsumesTwo | src/core/parser/lexer.c:111-120 | a backslash and the character after it are both taken into the body |
| Lexer.TrailingBackslash | src/core/parser/lexer.c:114-115 | a backslash as the last character fails the string |
| Lexer.LeadingZero | src/core/parser/lexer.c:142-159 | a literal starting with '0' is an int exactly when 'x' follows, running over the hex digits; otherwise it is an unknown token of length 1 |
| Lexer.Number | src/core/parser/lexer.c:160-190 | a literal starting with 1-9 is a double exactly when a '.' follows its digits, and then runs over the digits after the '.'; otherwise it is an int ending at its digits |
| Lexer.RunEndStep | src/core/parser/lexer.c:194-200 | a character of the class moves the end of its run on by one |
| Lexer.IdentifierShape | src/core/parser/lexer.c:191-205 | an identifier is scanned exactly when the first character after trivia can start one, and it takes the longest run of identifier characters |
| Lexer.NextTransparent | src/core/parser/lexer.c:64-84 | whatever the lookahead buffer holds, next returns the token that scanning from pos yields and moves pos past it |
| Lexer.PeekAsWritten | src/core/parser/lexer.c:280-324 | peeking as written leaves pos alone and keeps every buffered entry a record of a real scan |
| Lexer.Ahead | src/core/parser/lexer.c:280-324 | the token k places ahead ends within the input |
| Lexer.PeekAsWrittenLosesFirst | src/core/parser/lexer.c:295-313 | on "a b", peek 0, peek 1, peek 0 as written answers b the second time, not the token at pos |
| Lexer.ChainAhead | src/core/parser/lexer.c:314-320 | the buffered entry k places after lh_read is the token k places ahead |
| Lexer.ChainEndAhead | src/core/parser/lexer.c:301-307 | scanning from the last entry's end yields the token just after the buffered ones |
| Lexer.ChainAppend | src/core/parser/lexer.c:303-307 | an entry recorded at the end of the chain extends it |
| Lexer.ChainRecorded | src/core/parser/lexer.c:284-288 | every entry of the chain records a real scan |
| Lexer.Lexer.constructor | src/core/parser/lexer.c:51-58 | a lexer starts at 0 with an empty lookahead buffer |
| Lexer.Lexer.Scan | src/core/parser/lexer.c:86-278 | the scan loop yields the token and end position of the scan specification from pos |
| Lexer.Lexer.ScanAt | src/core/parser/lexer.c:105-277 | from a character that is not trivia, the branches of the token scan agree with the specification |
| Lexer.Lexer.ScanHex | src/core/parser/lexer.c:142-159 | the '0' branch agrees with the specification |
| Lexer.Lexer.ScanNumber | src/core/parser/lexer.c:160-190 | the decimal branch agrees with the specification |
| Lexer.Lexer.ScanOp | src/core/parser/lexer.c:227-276 | the operator table and the NUL and unknown cases agree with the specification |
| Lexer.Lexer.SkipRun | src/core/parser/lexer.c:194-200 | the loop moves pos to the end of the run of the class |
| Lexer.Lexer.ScanString | src/core/parser/lexer.c:107-141 | the string branch agrees with the specification |
| Lexer.Lexer.Next | src/core/parser/lexer.c:64-84 | au_lexer_next_ returns the token scanned from pos and moves pos past it, whether or not it comes from the buffer |
| Lexer.Lexer.ScanFrom | src/core/parser/lexer.c:301-308 | a scan from another position, with pos restored after it |
| Lexer.Lexer.Peek | src/core/parser/lexer.c:280-324 | peek with the index taken relative to lh_read: the token k places ahead of pos, pos unchanged, the buffer extended by one entry only when k is its length |
| Regs.FirstFree | src/core/parser/impl/regs.c:10-17 | the first unused register from a start, all before it used, or none when every one is used |
| Regs.FirstFreeAtMost | src/core/parser/impl/regs.c:10-17 | the first free register is no later than any free register |
| Regs.AllocateRelease | src/core/parser/impl/regs.c:3-59 | releasing a newly allocated unpinned register gives back the earlier used set |
| Regs.AllocateTwice | src/core/parser/impl/regs.c:3-27 | two allocations in a row give different registers, in increasing order |
| Regs.Allocator.constructor | src/core/parser/impl/regs.c:3-27 | an allocator starts with no register used, pinned or stacked and max_register -1 |
| Regs.Allocator.NewReg | src/core/parser/impl/regs.c:3-27 | fails, changing nothing, exactly when the stack is full or every register is used; otherwise takes the first free register, marks it used, pushes it and raises max_register to it |
| Regs.Allocator.LastReg | src/core/parser/impl/regs.c:31-35 | the top of the register stack, and the abort on an empty stack |
| Regs.Allocator.SwapTopRegs | src/core/parser/impl/regs.c:37-43 | swaps the top two registers, and aborts with fewer than two |
| Regs.Allocator.PushReg | src/core/parser/impl/regs.c:45-52 | marks the register used, then pushes it and raises max_register, or aborts on a full stack |
| Regs.Allocator.SetRegUnused | src/core/parser/impl/regs.c:54-59 | clears the register's used bit unless it is pinned |
| Regs.Allocator.PopReg | src/core/parser/impl/regs.c:61-67 | pops the top register and releases it unless pinned, and aborts on an empty stack |
| Regs.Allocator.PopRegNoConsume | src/core/parser/impl/regs.c:69-73 | pops the top register, leaving it used, and aborts on an empty stack |
| Regs.Allocator.FlushCachedRegs | src/core/parser/impl/regs.c:75-82 | every local's cached register is cleared and no register stays pinned |
| Regs.Allocator.FlushFreeRegs | src/core/parser/impl/regs.c:84-89 | the stack is emptied and exactly the pinned registers stay used |
| BcEmit.U16Bytes | src/core/parser/impl/bc.c:25-31 | a u16 operand takes two bytes |
| BcEmit.ReadU16 | src/core/parser/impl/bc.c:16 | a u16 read from two bytes is below 2^16 |
| BcEmit.WriteU16 | src/core/parser/impl/bc.c:13-18 | writing a u16 in place keeps the buffer's length |
| BcEmit.ReadAfterWrite | src/core/parser/impl/bc.c:13-18 | a u16 written in place reads back, and every other byte is unchanged |
| BcEmit.ReadAppended | src/core/parser/impl/bc.c:25-31 | a u16 appended reads back at the old length, and the bytes before it are unchanged |
| BcEmit.Emitter.constructor | src/core/parser/impl/bc.c:9-11 | the bytecode buffer starts empty |
| BcEmit.Emitter.EmitU8 | src/core/parser/impl/bc.c:9-11 | appends the byte |
| BcEmit.Emitter.EmitU16 | src/core/parser/impl/bc.c:25-31 | appends two bytes that read back as the value |
| BcEmit.Emitter.EmitPad8 | src/core/parser/impl/bc.c:33-35 | appends one zero byte |
| BcEmit.Emitter.ReplaceU16 | src/core/parser/impl/bc.c:13-23 | overwrites the two bytes at idx so they read back as the value, or aborts, changing nothing, when idx + 1 is not inside the buffer |
| Expr.FindOp | src/core/parser/impl/expr.c:245-251 | the first table entry whose text is the token's, or none when no entry has it |
| Expr.GetOperatorInfo | src/core/parser/impl/expr.c:240-252 | a token that is not an operator has no info; an operator gets the first matching entry |
| Expr.PrecedenceLevels | src/core/parser/impl/expr.c:271-292 | the precedences of the table (0 for shifts, 10 bitwise, 20 additive, 30 multiplicative, 40 comparison), every operator left-associative in the corrected table, which differs from the table as written only in '-', right-associative there |
| Expr.ItemAt | src/core/parser/impl/expr.c:301 | the item at the cursor, an operator or operand only inside the item list |
| Expr.PopWhile | src/core/parser/impl/expr.c:305-318 | the pop loop leaves a prefix of the stack whose top, if any, is an operator the new one does not pop |
| Expr.ExecBinaryExpr | src/core/parser/impl/expr.c:270-337 | the shunting-yard loop emits exactly the events and consumes exactly the items of the specification |
| Expr.EvalSnoc | src/core/parser/impl/expr.c:254-268 | evaluating one more event steps the stack of trees it leaves |
| Expr.WovenOperand | src/core/parser/impl/expr.c:324-326 | an operand tree adds its flattening to the items |
| Expr.WovenOperator | src/core/parser/impl/expr.c:319-320 | an operator pushed adds itself to the items |
| Expr.WovenApply | src/core/parser/impl/expr.c:254-268 | applying an operator to the top two trees keeps the flattened items |
| Expr.ApplyParsed | src/core/parser/impl/expr.c:312-314 | generating the top operator keeps the parse invariant, grouping included, and the newest result is that operator's node |
| Expr.PopWhileParsed | src/core/parser/impl/expr.c:305-318 | the pop loop keeps the parse invariant, grouping included, and leaves as newest result an operand or a node the new operator pops |
| Expr.FlushParsed | src/core/parser/impl/expr.c:330-333 | flushing the operator stack leaves the items as a single tree |
| Expr.ShuntFromParsed | src/core/parser/impl/expr.c:300-333 | on alternating operands and operators the loop succeeds, consumes them all and leaves them as one tree |
| Expr.OperatorParsed | src/core/parser/impl/expr.c:303-320 | an operator item keeps the parse invariant with the balance back to 0 |
| Expr.OperandParsed | src/core/parser/impl/expr.c:321-327 | an operand item keeps the parse invariant with the balance at 1 |
| Expr.PushOperatorPending | src/core/parser/impl/expr.c:305-320 | pushing an operator that pops the newest result's root and not the operator below keeps the grouping invariant |
| Expr.PushOperandPending | src/core/parser/impl/expr.c:321-327 | pushing an operand keeps the grouping invariant |
| Expr.ApplyPending | src/core/parser/impl/expr.c:312-314 | generating the top operator over the two newest results keeps the grouping invariant |
| Expr.ShuntComplete | src/core/parser/impl/expr.c:270-337 | for every alternating operand/operator sequence the emitted code evaluates to exactly one tree whose in-order items are the input, and every node of it pops its left operand's operator and is not popped by its right operand's |
| Expr.MinusAsWritten | src/core/parser/impl/expr.c:280 | with '-' right-associative as written, a - b - c compiles as a - (b - c), which is not grouped by precedence with equal levels to the left |
| Expr.LeftAssociativeOfItems | src/core/parser/impl/expr.c:271-292 | a tree whose items hold only left-associative operators has only left-associative nodes |
| Expr.GroupedByPrecedence | src/core/parser/impl/expr.c:305-318 | with left-associative operators the pop rule's grouping is grouping by precedence: a left operand binds at least as tightly, a right operand strictly more tightly |
| Expr.ShuntGroupsByPrecedence | src/core/parser/impl/expr.c:270-337 | with the corrected table, every complete binary expression compiles to one tree over its items grouped by precedence with equal levels to the left |
| Expr.OpsBindAtLeast | src/core/parser/impl/expr.c:305-318 | every operator inside a precedence-grouped tree binds at least as tightly as its root |
| Expr.PrecedenceGroupedUnique | src/core/parser/impl/expr.c:270-337 | two trees grouped by precedence over the same items are the same tree |
| Expr.ShuntIsPrecedenceParse | src/core/parser/impl/expr.c:270-337 | with the corrected table, the compiled tree is exactly the one precedence-grouped tree over the items |
| Expr.MinusCorrected | src/core/parser/impl/expr.c:280 | with '-' left-associative, a - b - c compiles as (a - b) - c |
| Expr.FlushTwo | src/core/parser/impl/expr.c:330-333 | flushing two stacked operators applies both, top first |
| Expr.EvalRightNested | src/core/parser/impl/expr.c:254-268 | loading three operands and then applying twice nests to the right |
| Expr.EvalLeftNested | src/core/parser/impl/expr.c:254-268 | applying after the second operand nests to the left |
| Expr.Generate | src/core/parser/impl/expr.c:254-268 | emits the opcode and the two popped operand registers, aborts on fewer than two, and fails exactly when no register is free after freeing the operands; on success emits the result register and pushes it |
| Expr.EmitResult | src/core/parser/impl/expr.c:264-266 | allocates the first free register and emits it, or fails with nothing emitted |
| Expr.PopOperands | src/core/parser/impl/expr.c:258-259 | pops the right then the left operand register, freeing both unless pinned |
| Expr.OperandRegisterReused | src/core/parser/impl/expr.c:258-265 | after freeing the operands the result register is no later than the left operand's |
| Expr.HexValue | src/core/parser/impl/expr.c:696-704 | -1 exactly for a non-hex character, otherwise the digit's value below 16 |
| Expr.HexValueDigits | src/core/parser/impl/expr.c:696-704 | each hex digit, in either case, has its value |
| Expr.HornerWrapIsWrap | src/core/parser/impl/expr.c:713-722 | accumulating with 32-bit wrap-around at each step equals wrapping the exact value once |
| Expr.LiteralDigits | src/core/parser/impl/expr.c:714-722 | the digits of a literal: all its characters, or all after the 0x prefix |
| Expr.DecodeInt | src/core/parser/impl/expr.c:712-722 | the loops compute the literal's value in base 16 after 0x and base 10 otherwise, wrapped to 32 bits |
| Expr.LiteralDigitAt | src/core/parser/impl/expr.c:716-720 | each digit is the hex value or the decimal value of its character |
| Expr.HornerWrapSnoc | src/core/parser/impl/expr.c:716-720 | one more digit multiplies by the base and adds it, wrapped |
| Expr.EmitIntLiteral | src/core/parser/impl/expr.c:724-737 | fails with nothing emitted when no register can be had; otherwise emits MOV_U16 with the number for values up to 0x8000 and LOAD_CONST with the constant index above |
| Expr.DecimalLiteral | src/core/parser/impl/expr.c:719-721 | a decimal literal within int32 has its exact decimal value |
| Expr.HornerNonNegative | src/core/parser/impl/expr.c:719-721 | non-negative digits give a non-negative value |
| Expr.Unescape | src/core/parser/impl/expr.c:959-990 | the escape loop yields the formatted string when there was an escape and the token text otherwise |
| Expr.DecodePlain | src/core/parser/impl/expr.c:959-990 | a text without backslashes decodes to itself |
| Expr.UnescapeFromFormatted | src/core/parser/impl/expr.c:959-990 | once formatting has begun, the loop appends the pairwise decoding of the rest |
| Expr.UnescapeFromPlain | src/core/parser/impl/expr.c:959-990 | before the first escape the loop yields the decoded text if a backslash follows and nothing otherwise |
| Expr.UnescapedDecodes | src/core/parser/impl/expr.c:959-1012 | the string constant is the text with each backslash pair read as the character it escapes ('\n' for n, the character itself otherwise) |
| Stmt.WithSemicolon | src/core/parser/impl/stmt.c:14-25 | a failed statement stays failed; a parsed one succeeds exactly when followed by the end of input or ';', and is otherwise an unexpected token |
| Stmt.ReturnCode | src/core/parser/impl/stmt.c:832-843 | after a return the last instruction is a return opcode; the code is either rewritten in place (RET_LOCAL) or extended by one RET instruction, every other byte kept |
| Stmt.Patch | src/core/parser/impl/stmt.c:707-709 | a jump operand is patched to the distance in instructions exactly when it fits in 16 bits, and is otherwise BYTECODE_GEN |
| Stmt.PatchFrame | src/core/parser/impl/stmt.c:707-709 | patching changes only the two operand bytes |
| Stmt.Jump | src/core/parser/impl/stmt.c:628-632 | a jump instruction is four bytes: the opcode, the register, and the operand to patch |
| Stmt.CloseIf | src/core/parser/impl/stmt.c:703-717 | the if without else: succeeds exactly when both offsets fit in 16 bits, then the JNIF reads the distance to its target and the body's JREL the distance to the end |
| Stmt.CloseIfFrame | src/core/parser/impl/stmt.c:703-717 | closing an if changes only the operands of its jumps |
| Stmt.CloseIfKeeps | src/core/parser/impl/stmt.c:703-717 | a byte outside those operands keeps its value |
| Stmt.ElseExit | src/core/parser/impl/stmt.c:671-681 | after the else part a JREL is appended unless it ends in a return |
| Stmt.ElseExitFacts | src/core/parser/impl/stmt.c:671-690 | the else exit keeps the code before it, and its JREL leads to the end |
| Stmt.ElseExitKeeps | src/core/parser/impl/stmt.c:671-681 | the else exit leaves every earlier byte unchanged |
| Stmt.Close | src/core/parser/impl/stmt.c:683-717 | closing the if only extends the code and leaves the source map alone |
| Stmt.CloseWhile | src/core/parser/impl/stmt.c:769-783 | succeeds exactly when both offsets fit in 16 bits, then the JNIF reads the distance to the end and the JRELB the distance back to the condition |
| Stmt.CloseWhileFrame | src/core/parser/impl/stmt.c:769-783 | closing a while changes only the operands of its two jumps |
| Stmt.Record | src/core/parser/impl/stmt.c:77-90 | a statement that emitted bytecode adds a source-map entry from its first to its last byte with its start and function index; one that emitted nothing adds none |
| Stmt.StmtCode | src/core/parser/impl/stmt.c:27-76 | a statement's code only extends the bytecode |
| Stmt.CompileStmt | src/core/parser/impl/stmt.c:27-92 | a statement and its source-map entry only extend the bytecode |
| Stmt.CompileBlock | src/core/parser/impl/stmt.c:859-884 | a block only extends the bytecode |
| Stmt.CompileIf | src/core/parser/impl/stmt.c:617-736 | an if emits at least its condition and the JNIF |
| Stmt.ExitJump | src/core/parser/impl/stmt.c:641-649 | a JREL is appended after the body exactly when the rule for it holds, and nothing else changes |
| Stmt.CompileElse | src/core/parser/impl/stmt.c:651-669 | an else part only extends the bytecode |
| Stmt.AfterBody | src/core/parser/impl/stmt.c:639-717 | the rest of the if only extends the bytecode |
| Stmt.CompileWhile | src/core/parser/impl/stmt.c:738-797 | a while emits at least its condition, the JNIF and the JRELB |
| Stmt.RecordGrows | src/core/parser/impl/stmt.c:77-90 | recording the source map keeps the code grown and every map entry valid |
| Stmt.HeadGrows | src/core/parser/impl/stmt.c:625-632 | the condition and its JNIF extend the code by whole instructions |
| Stmt.ReturnGrows | src/core/parser/impl/stmt.c:828-845 | a return keeps the code before the statement and extends by whole instructions |
| Stmt.StmtGrows | src/core/parser/impl/stmt.c:27-92 | every statement keeps the earlier bytecode, grows it by whole instructions, only appends to the source map and keeps every entry within the code |
| Stmt.StmtCodeGrows | src/core/parser/impl/stmt.c:27-76 | the code of each kind of statement grows the bytecode in that way |
| Stmt.BlockGrows | src/core/parser/impl/stmt.c:859-884 | a block grows the bytecode in that way |
| Stmt.IfGrows | src/core/parser/impl/stmt.c:617-736 | an if grows the bytecode in that way, its patches all within its own code |
| Stmt.IfPartsGrow | src/core/parser/impl/stmt.c:637-717 | the body, the else part and the patches together grow the code in that way |
| Stmt.AfterBodyGrows | src/core/parser/impl/stmt.c:639-717 | after the body, only the code from the JNIF's operand on is changed |
| Stmt.ClosedGrows | src/core/parser/impl/stmt.c:683-717 | the exit jump, the else part and the patches change only the code from the JNIF's operand on |
| Stmt.ExitGrows | src/core/parser/impl/stmt.c:641-649 | the exit JREL only appends |
| Stmt.ElseGrows | src/core/parser/impl/stmt.c:651-669 | the else part grows the code in that way |
| Stmt.CloseGrows | src/core/parser/impl/stmt.c:683-717 | the patches change only the code from the JNIF's operand on |
| Stmt.CloseJumps | src/core/parser/impl/stmt.c:683-717 | the JNIF reads the distance to the else part, the body's JREL the distance to the end, and only the else exit adds code |
| Stmt.CloseKeeps | src/core/parser/impl/stmt.c:683-717 | a byte outside the patched operands keeps its value |
| Stmt.CloseWhileGrows | src/core/parser/impl/stmt.c:769-783 | the while patches change only the code from the JNIF's operand on |
| Stmt.WhileGrows | src/core/parser/impl/stmt.c:738-797 | a while grows the bytecode in that way |
| Stmt.CloseWhileKeeps | src/core/parser/impl/stmt.c:738-783 | the patched while still extends the code before it |
| Stmt.StmtEndsInReturn | src/core/parser/impl/stmt.c:641 | a statement that cannot fall through compiles to code whose last instruction is a return |
| Stmt.BlockEndsInReturn | src/core/parser/impl/stmt.c:641 | a block that cannot fall through ends in a return instruction |
| Stmt.IfEndsInReturn | src/core/parser/impl/stmt.c:641-681 | an if whose body and else part both cannot fall through ends in a return instruction |
| Stmt.AfterBodyEndsInReturn | src/core/parser/impl/stmt.c:641-681 | with such an if, the code after the body ends in a return instruction |
| Stmt.ElseEndsInReturn | src/core/parser/impl/stmt.c:651-681 | an else part that cannot fall through ends in a return instruction |
| Stmt.ForwardTarget | src/core/parser/impl/stmt.c:707-716 | a forward jump whose operand is the distance in instructions leads to its target |
| Stmt.BackwardTarget | src/core/parser/impl/stmt.c:778-783 | a JRELB whose operand is the distance in instructions leads back to its target |
| Stmt.IfJumps | src/core/parser/impl/stmt.c:617-736 | with the corrected JREL rule, the JNIF leads past the body and its exit jump, a body that can fall through is followed by a JREL to the end, one that cannot ends in a return; so no path leaves the body into the else part |
| Stmt.BodyLayout | src/core/parser/impl/stmt.c:625-638 | the JNIF and its register sit after the condition, and the body ends in a return when it cannot fall through |
| Stmt.AfterBodyLayout | src/core/parser/impl/stmt.c:639-717 | the rest of the if completes that jump layout |
| Stmt.CloseFacts | src/core/parser/impl/stmt.c:683-717 | the patched operands read the distances to the else part and to the end, and the opcodes stay |
| Stmt.CloseLayout | src/core/parser/impl/stmt.c:683-717 | after patching the JNIF leads to the else part and the JREL to the end |
| Stmt.JumpArith | src/core/parser/impl/stmt.c:695-716 | operands holding the distances make the jumps lead to the else part and the end |
| Stmt.WhileJumps | src/core/parser/impl/stmt.c:738-797 | the JNIF on the condition's register leads to the end, and the JRELB after the body leads back to the start of the condition |
| Stmt.WhileLayout | src/core/parser/impl/stmt.c:743-783 | the patched while has that layout |
| Stmt.CloseWhileLayout | src/core/parser/impl/stmt.c:769-783 | the patches keep the opcodes and make the jumps lead to the end and back to the condition |
| Stmt.WhileArith | src/core/parser/impl/stmt.c:773-782 | operands holding the distances make the while's jumps lead to the end and to the condition |
| Stmt.NestedIf | src/core/parser/impl/stmt.c:641-649 | the nested if of the finding is well formed and its outer body can fall through |
| Stmt.NestedIfAsWritten | src/core/parser/impl/stmt.c:641-649 | as written, the outer body gets no JREL because its last instruction is the inner return |
| Stmt.AsWrittenTarget | src/core/parser/impl/stmt.c:641-649 | as written, the inner JNIF leads to the first instruction of the else part |
| Stmt.NestedIfCorrected | src/core/parser/impl/stmt.c:641-649 | corrected, a JREL to the end follows the outer body |
| Stmt.CorrectedTargets | src/core/parser/impl/stmt.c:641-649 | corrected, the inner JNIF leads to that JREL, which leads to the end |
| Stmt.Parser.constructor | src/core/parser/impl/stmt.c:27-31 | the statement parser starts with empty source map and block level 0 over the given bytecode |
| Stmt.Parser.ExecStatement | src/core/parser/impl/stmt.c:27-92 | au_parser_exec_statement emits the code and source map of the specification and fails exactly when it does |
| Stmt.Parser.ExecReturn | src/core/parser/impl/stmt.c:828-845 | the return peephole rewrites or appends as the specification says |
| Stmt.Parser.ExecBlock | src/core/parser/impl/stmt.c:859-884 | au_parser_exec_block compiles its statements in order, leaving the block level as it was on success and raised on failure |
| Stmt.Parser.PatchJump | src/core/parser/impl/stmt.c:707-709 | patches the operand when the offset fits and fails with BYTECODE_GEN otherwise |
| Stmt.Parser.EmitJump | src/core/parser/impl/stmt.c:628-632 | appends a jump instruction with the operand to patch |
| Stmt.Parser.ExecIf | src/core/parser/impl/stmt.c:617-736 | the if statement with the corrected JREL rule, matching the specification |
| Stmt.Parser.ExecAfterBody | src/core/parser/impl/stmt.c:639-717 | the exit jump, the else part and the patches, matching the specification |
| Stmt.Parser.ExecCloseIf | src/core/parser/impl/stmt.c:703-717 | the final patches, failing with BYTECODE_GEN exactly when the specification does |
| Stmt.Parser.ExecClose | src/core/parser/impl/stmt.c:683-717 | the else exit and the patches, matching the specification |
| Stmt.Parser.ExecWhile | src/core/parser/impl/stmt.c:738-797 | the while statement, matching the specification |
| Stmt.Parser.ExecCloseWhile | src/core/parser/impl/stmt.c:761-783 | the JRELB and both patches, failing with BYTECODE_GEN exactly when the specification does |
| Resolve.Innermost | src/core/parser/impl/resolve.c:12-18 | the scope chosen for an identifier is the innermost one that declares it, and there is none exactly when no scope declares it |
| Resolve.Lookup | src/core/parser/impl/resolve.c:9-20 | an identifier resolves exactly when some scope declares it, and then to the index the innermost declaring scope gives it |
| Resolve.InnerHides | src/core/parser/impl/resolve.c:12-18 | a name declared in the innermost scope hides every outer declaration of it |
| Resolve.NewScopeTransparent | src/core/parser/impl/resolve.c:12-18 | opening a scope that does not declare a name leaves its resolution unchanged |
| Resolve.ResolveIdentifier | src/core/parser/impl/resolve.c:9-20 | the scope walk from the innermost scope outwards returns exactly the innermost declaration's index |
| Resolve.ProgramData.constructor | src/core/parser/impl/parser.c:71-73 | the program data starts as the tables given (the standard library's functions already installed) |
| Resolve.ProgramData.ResolveModule | src/core/parser/impl/resolve.c:22-34 | a module name resolves exactly when it was imported, and then to its index, which is in range |
| Resolve.ProgramData.ResolveFn | src/core/parser/impl/resolve.c:36-115 | the result, whether a function was created and the new tables follow the resolution rules (module path, self call, known name, forward declaration), and the tables stay well formed |
| Resolve.ResolveFnKeepsValid | src/core/parser/impl/resolve.c:36-115 | resolving a function keeps the tables well formed, and every index it returns other than a self call is a valid function index |
| Resolve.ResolveFnCreates | src/core/parser/impl/resolve.c:58-110 | a function is created exactly when the table grows by one, and then it is appended at the end (an importer for a module call, a forward declaration with the call's arity otherwise) with everything else unchanged; with nothing created nothing changes |
| Resolve.ResolveFnIdempotent | src/core/parser/impl/resolve.c:36-115 | resolving the same call again finds what the first resolution created or found and creates nothing |
| Parse.TopParser.constructor | src/core/parser/impl/parser.c:13-42 | a new parser has empty bytecode and source map, block level 0, the main function's index, no locals, no self name, max register -1 and all registers free and unpinned |
| Parse.TopParser.FinishStatement | src/core/parser/impl/parser.c:55-60 | after a statement the register it took raises max_register and the register stack is empty again |
| Parse.Plain | src/core/parser/impl/parser.c:53-67 | the statements of the marked list, in order |
| Parse.Raise | src/core/parser/impl/regs.c:23-24 | max_register after one statement is the larger of the old value and the register the statement took, if any |
| Parse.HighWater | src/core/parser/impl/regs.c:23-24 | max_register after the statements is at least its start and every register they took, and is one of those |
| Parse.TopParser.Exec | src/core/parser/impl/parser.c:53-67 | parsing the statements fails with the first statement's error, or succeeds with the block's bytecode and source map followed by RET_NULL and three pad bytes and max_register raised to the highest register the statements took; the register stack is empty between statements |
| Parse.FirstNone | src/core/parser/impl/parser.c:89-101 | the index found is the first forward declaration left in the function table, and there is none exactly when no function is undefined |
| Parse.ParseSucceeds | src/core/parser/impl/parser.c:69-121 | a successful parse leaves no function undefined, and its main code ends in RET_NULL and three pad bytes with num_values = num_locals + num_registers and num_registers = max_register + 1 |
| Parse.UndefinedFunctionFails | src/core/parser/impl/parser.c:89-101 | when the statements parse but some function was called and never defined, the parse fails with UNKNOWN_FUNCTION naming the first such function |
| Parse.AuParse | src/core/parser/impl/parser.c:69-121 | au_parse returns the parser's error, or UNKNOWN_FUNCTION for the first undefined function, or the main code with num_registers one above the highest register the statements took |
| Objects.SizeOf | src/core/rt/au_array.c:61 | the int32 index converted to size_t is the index itself when non-negative and at least 2^64 - 2^31 when negative |
| Objects.NegativeIndexOutOfRange | src/core/rt/au_array.c:61-63 | a negative index always fails the bounds check of any container that fits in memory |
| Objects.Refs | src/core/rt/value/ref.h:20-56 | a value holds at most one counted reference, exactly when it is a struct or a function, and then to that object |
| Objects.SlotRefsUpdate | src/core/rt/au_array.c:69-78 | overwriting one slot takes the old value's reference out of the slots and puts the new value's in |
| Objects.StoreKeepsBalance | src/core/rt/au_array.c:69-78 | a store that takes a count on the new value and gives one up on the overwritten value keeps a container in balance (counts = references held elsewhere + slot references) |
| Objects.StoreAsWrittenUnbalanced | src/core/rt/au_array.c:74-76 | the store as written (ref the new value, then deref the slot that already holds it) leaves a struct stored over none one count short of its holders |
| Objects.PushKeepsBalance | src/core/rt/au_array.c:54-57 | a push takes exactly the count the new slot needs |
| Objects.Counts.constructor | src/core/rt/value/ref.h:20-56 | the counts start as given |
| Objects.Counts.RefValue | src/core/rt/value/ref.h:20-37 | au_value_ref adds the value's reference to the counts |
| Objects.Counts.DerefValue | src/core/rt/value/ref.h:39-56 | au_value_deref takes the value's reference out of the counts |
| Objects.ObjArray.constructor | src/core/rt/au_array.c:33-45 | a new array has count 1, no items and the capacity asked for |
| Objects.ObjArray.Push | src/core/rt/au_array.c:54-57 | the element is appended after the existing items and one count is taken on it |
| Objects.ObjArray.Get | src/core/rt/au_array.c:59-67 | a get succeeds exactly when the converted index is below the length, returns that item and takes a count on it; otherwise nothing changes |
| Objects.ObjArray.SetAsWritten | src/core/rt/au_array.c:69-78 | as written: the set succeeds exactly when the index is below the length and replaces that item only, but the counts end unchanged for the new value and are never lowered for the old one |
| Objects.ObjArray.Set | src/core/rt/au_array.c:69-78 | the set succeeds exactly when the index is below the length, replaces that item only, takes a count on the new value and gives up the overwritten one's |
| Objects.ObjArray.Len | src/core/rt/au_array.c:80-82 | the length as int32, equal to the number of items whenever that fits |
| Objects.TupleGetAcceptsAsWritten | src/core/rt/au_tuple.c:54-56 | the bounds check as written lets every index up to and including the length through |
| Objects.TupleGetPastEnd | src/core/rt/au_tuple.c:54-58 | the length itself passes that check although it is not a slot |
| Objects.ObjTuple.constructor | src/core/rt/au_tuple.c:32-44 | a new tuple has count 1 and its slots all none, holding no reference |
| Objects.ObjTuple.Get | src/core/rt/au_tuple.c:52-60 | a get succeeds exactly when the converted index is below the length (the corrected check), returns that slot and takes a count on it |
| Objects.ObjTuple.SetAsWritten | src/core/rt/au_tuple.c:62-71 | as written: the set succeeds exactly when the index is below the length and replaces that slot only, with the counts left as for the array's set as written |
| Objects.ObjTuple.Set | src/core/rt/au_tuple.c:62-71 | the set succeeds exactly when the index is below the length, replaces that slot only and keeps the counts balanced |
| Objects.ObjTuple.Len | src/core/rt/au_tuple.c:73-75 | the length as int32, equal to the slot count whenever that fits |
| Objects.ClassInterface.constructor | src/core/rt/au_class.c:13-19 | a new interface has the given name, no flags, count 1 and an empty property map |
| Objects.ClassInterface.Ref | src/core/rt/au_class.c:21-23 | the uint32 count goes up by one (wrapping at 2^32), nothing else changes |
| Objects.ClassInterface.Deref | src/core/rt/au_class.c:25-32 | the uint32 count goes down by one, and the interface is freed exactly when the count reaches 0 |
| Objects.InterfaceDerefUndoesRef | src/core/rt/au_class.c:21-26 | a deref after a ref restores every uint32 count |
| Objects.ObjClass.constructor | src/core/rt/au_class.c:48-62 | a new instance has count 1, its interface, and one none slot per property |
| Objects.ObjClass.Get | src/core/rt/au_class.c:71-75 | indexing a class instance always fails |
| Objects.ObjClass.Set | src/core/rt/au_class.c:77-81 | assigning through an index of a class instance always fails |
| Objects.ObjClass.Len | src/core/rt/au_class.c:83-85 | the length is the interface's property count whenever that fits in int32 |
| Malloc.RefHeader | src/core/rt/malloc/static.c:66-71 | a ref aborts exactly when the count is at MAX_RC, and otherwise raises it by one, keeping the delete callback |
| Malloc.DerefHeader | src/core/rt/malloc/static.c:73-77 | a deref aborts exactly when the count is 0, and otherwise lowers it by one, keeping the delete callback |
| Malloc.DerefUndoesRef | src/core/rt/malloc/static.c:66-77 | below MAX_RC a ref succeeds and a deref after it gives back the header as it was |
| Malloc.DerefFreesLast | src/core/rt/malloc/static.c:77-79 | a deref brings the count to 0, and so frees the object, exactly when the count was 1 |
| Malloc.ObjHeap.constructor | src/core/rt/malloc/static.c:17 | the heap starts with no objects |
| Malloc.ObjHeap.ObjMalloc | src/core/rt/malloc/static.c:35-46 | a new object is added at the address malloc gives, with its delete callback and count 1, and no other object changes |
| Malloc.ObjHeap.Ref | src/core/rt/malloc/static.c:66-71 | au_obj_ref aborts exactly at MAX_RC, leaving the heap unchanged, and otherwise raises that object's count only |
| Malloc.ObjHeap.Free | src/core/rt/malloc/static.c:57-64 | au_obj_free aborts exactly when the count is not 0, and otherwise removes that object only and reports whether its delete callback runs |
| Malloc.ObjHeap.Deref | src/core/rt/malloc/static.c:73-80 | au_obj_deref aborts exactly at count 0; otherwise the object is freed exactly when its count was 1, and its count is lowered by one when it is not |
| Malloc.ObjHeap.Realloc | src/core/rt/malloc/static.c:48-55 | au_obj_realloc aborts exactly when the object is shared, and otherwise moves its header to the new address unchanged, every other object kept |
| Fns.NumArgs | src/core/fn/main.h:102-123 | every function type of the enum reports the arity it records, and a type outside the enum reports -1 |
| Fns.SelectInstance | src/core/fn/call.h:64-71 | the instance chosen is the first one registered for the class interface, and there is none exactly when no instance is for it |
| Fns.FnAt | src/core/fn/call.h:53 | a function is found exactly when the program and the index are in range, and it is the one stored there |
| Fns.FollowReachesCode | src/core/fn/call.h:28-85 | a call that ends in code ends in a library function, or in a bytecode function whose class, if it has one, is the class of the first argument |
| Fns.FollowFuelMonotone | src/core/fn/call.h:28-85 | once a call is resolved within some number of steps, allowing more steps resolves it the same way |
| Fns.DispatchChoice | src/core/fn/call.h:56-79 | a dispatch call is an op error without a class instance first argument; otherwise it continues with the first instance for that class, else with the fallback, else it is an op error |
| Fns.Call | src/core/fn/call.h:24-85 | the loop through importer stubs and dispatch functions ends exactly where the step relation ends, and is_native is set exactly for a library function |
| ThreadLocal.SetCurrent | src/core/vm/tl.c:19-24 | replacing a non-null thread-local with another non-null one is fatal; any other set leaves the new value as current |
| ThreadLocal.ClearThenSet | src/core/vm/tl.c:19-24 | clearing always succeeds, and after a clear any thread-local can be set |
| ThreadLocal.Current.constructor | src/core/vm/tl.c:13 | the current thread-local starts null |
| ThreadLocal.Current.Set | src/core/vm/tl.c:19-24 | the set fails exactly when it would replace a non-null thread-local, leaving it as it was, and otherwise stores the new one |
| ThreadLocal.ReserveKeepsOk | src/core/vm/tl.c:77-88 | reserving keeps every path on an existing slot; it fails, changing nothing, exactly for a path already recorded, and otherwise appends one null slot and returns its index as uint32 |
| ThreadLocal.ReserveTwiceFails | src/core/vm/tl.c:77-88 | a path can be reserved only once |
| ThreadLocal.ReserveAddGet | src/core/vm/tl.c:77-106 | a reserved module reads as null until it is added and as its program afterwards, and a second add of its slot aborts |
| ThreadLocal.AddKeepsOthers | src/core/vm/tl.c:90-96 | adding a module changes what no other path reads |
| ThreadLocal.ThreadLocal.constructor | src/core/vm/tl.c:26-39 | a new thread-local has one none slot per constant of the program, holding no reference, an empty module map and no loaded module |
| ThreadLocal.ThreadLocal.AddConstCache | src/core/vm/tl.c:56-64 | the cache keeps its values and gains len none slots at the end, adding no counted reference |
| ThreadLocal.ThreadLocal.DelConstCache | src/core/vm/tl.c:66-75 | the cache is emptied and every reference it held is given up |
| ThreadLocal.ThreadLocal.ReserveModule | src/core/vm/tl.c:77-88 | the result and the new registry are those of the reservation rule, the map's failure to grow taken from the hash map's own state |
| ThreadLocal.ThreadLocal.AddModule | src/core/vm/tl.c:90-96 | adding is fatal past the end and aborts on a filled slot, leaving the registry unchanged, and otherwise fills exactly that slot |
| ThreadLocal.ThreadLocal.GetModule | src/core/vm/tl.c:98-106 | the lookup returns null for an unknown path and otherwise the path's slot, and never fails |
| ThreadLocal.DerefStep | src/core/vm/tl.c:69-71 | each step of the release loop gives up exactly one more cached value's reference |
| ThreadLocal.CacheGrowthHoldsNoRefs | src/core/vm/tl.c:60-63 | the none slots the cache grows by hold no counted reference |
| Modules.ResolveDotSlash | src/core/vm/module.c:19-36 | "./x" resolves to the parent directory, a slash and x |
| Modules.ResolveDotDot | src/core/vm/module.c:19-36 | "../x" resolves to the parent directory, a slash and "../x" kept whole |
| Modules.ResolveOther | src/core/vm/module.c:19-36 | a path resolves to null exactly when it starts with neither "./" nor "../" |
| Modules.ResolveSplits | src/core/vm/module.c:27-33 | a resolved path is exactly the parent directory, one slash and the canonical relative path, in that order |
| Modules.IsLibIffSuffix | src/core/vm/module.c:43-46 | a path is taken for a native library exactly when it is a non-empty name followed by ".so" |
| Modules.ImportBranches | src/core/vm/module.c:41-77 | a library path's outcome depends only on the dynamic-loading calls and a source path's only on reading the file; a source import records a source module and succeeds exactly when the file is read; a successful library import records a library module |
| Exception.FirstCovering | src/core/vm/exception.c:26-30 | the entry found is the first from the start index whose range holds the pc under the chosen test, and there is none exactly when no later entry holds it |
| Exception.ResolvePosAsWritten | src/core/vm/exception.c:22-32 | as written: the position is the source start of the first entry whose range, both ends inclusive, holds the frame's offset, or 0 when none does |
| Exception.ResolvePos | src/core/vm/exception.c:22-32 | the position is the source start of the first entry whose range, end exclusive, holds the frame's offset, or 0 when none does |
| Exception.ResolvesToOwner | src/core/vm/exception.c:22-32 | with disjoint entries, an offset inside a statement's bytecode resolves to that statement's position wherever its entry is |
| Exception.UncoveredIsZero | src/core/vm/exception.c:31 | an offset outside every entry resolves to 0 under either test |
| Exception.BoundaryGoesToPrevious | src/core/vm/exception.c:28 | with two consecutive statements, the inclusive test reports the first byte of the second at the first statement's position, while the exclusive test reports the second's |
| StdStr.DigitByte | src/stdlib/str.c:53 | the byte written for a digit is a decimal digit whose value is that digit |
| StdStr.Reverse | src/stdlib/str.c:66-70 | the reversal has the same length and holds byte i at position length - 1 - i |
| StdStr.Decimal | src/stdlib/str.c:47-56 | a numeral is non-empty and all digits, starts with no zero unless it is "0", and is "0" exactly for 0 |
| StdStr.RevDigitsReversed | src/stdlib/str.c:47-70 | for a non-zero magnitude, the digits written last first, reversed, are the numeral |
| StdStr.IntoIntAgrees | src/stdlib/str.c:36-72 | for every int but 0 the code as written yields the intended numeral, with '-' in front of a negative one |
| StdStr.ReverseSnoc | src/stdlib/str.c:57-70 | the '-' written after the digits comes first after the reversal |
| StdStr.IntoZeroIsEmpty | src/stdlib/str.c:47-71 | as written, into(0) never enters the digit loop and yields the empty string, where the numeral is "0" |
| StdStr.IntoIntShape | src/stdlib/str.c:36-72 | the numeral starts with '-' exactly for a negative int, and the rest is the numeral of its magnitude |
| StdStr.ReverseInPlace | src/stdlib/str.c:66-70 | swapping from both ends leaves the array reversed |
| StdStr.DigitsBackwards | src/stdlib/str.c:47-56 | the digit loop, run at least once, writes the digits of the magnitude last first, and "0" for 0 |
| StdStr.RevDigitsStep | src/stdlib/str.c:53-55 | each round writes the last digit of what is left and goes on with the rest |
| StdStr.StrIntoInt | src/stdlib/str.c:36-72 | the int case yields exactly the intended numeral of every int, 0 included |
| StdStr.IntoSpec | src/stdlib/str.c:26-79 | into always yields a string |
| StdStr.Into | src/stdlib/str.c:26-79 | a string is returned as it is, a bool as "(true)" or "(false)", an int as its numeral and anything else as the empty string |
| StdStr.StartsWithIff | src/stdlib/str.c:220-246 | starts_with holds exactly when the haystack is the needle followed by something |
| StdStr.EndsWithIff | src/stdlib/str.c:248-275 | ends_with holds exactly when the haystack is something followed by the needle |
| StdStr.ConcatParts | src/stdlib/str.c:220-275 | a concatenation starts with its first part and ends with its second, and a non-string argument on either side makes both tests false |
| StdStr.IndexOf | src/stdlib/str.c:160-191 | the result is -1 unless both arguments are strings; otherwise a non-negative result is the int32 offset of the first character start where the needle occurs, and -1 means the needle occurs at no character start |
| StdStr.Contains | src/stdlib/str.c:193-218 | the result is true exactly when both are strings and the needle occurs at some character start of the haystack |
| StdStr.ClassesTestFirstByte | src/stdlib/str.c:277-300 | is_space and is_digit depend only on the first byte, are false for an empty or non-string argument, and the numeral of a non-negative int is a digit string |
| StdTypes.LeadingDigits | src/stdlib/types.c:25-31 | the count of leading digits covers only digits and stops at the first non-digit or the end |
| StdTypes.DigitValues | src/stdlib/types.c:27 | each byte's value as a digit is its distance from '0' |
| StdTypes.StdInt | src/stdlib/types.c:13-40 | an int is returned as it is, a double as the cast gives, a string as its leading digits read in base 10 with int32 wrap-around, anything else as 0; the result is always an int and the argument's count is given up unless it is returned |
| StdTypes.ParseDigits | src/stdlib/types.c:24-31 | the digit loop yields the leading digits read in base 10, wrapping at 32 bits |
| StdTypes.DigitStep | src/stdlib/types.c:26-27 | each digit extends the leading digits and takes the number so far to ten times it plus the digit, wrapped |
| StdTypes.DigitsEnd | src/stdlib/types.c:28-29 | the first non-digit ends the leading digits |
| StdTypes.StopsAtNonDigit | src/stdlib/types.c:22-34 | whatever follows the first non-digit does not affect int() |
| StdTypes.LeadingDigitsOf | src/stdlib/types.c:25-31 | the leading digits are exactly the digits before the first non-digit |
| StdTypes.DecimalValue | src/stdlib/types.c:25-31 | the decimal numeral of a number reads back in base 10 as that number |
| StdTypes.IntOfIntoRoundTrip | src/stdlib/types.c:22-34 | int() of the numeral into() gives for a non-negative int is that int |
| StdTypes.IntOfNegativeIsZero | src/stdlib/types.c:25-31 | int() reads no sign, so the numeral of a negative int reads back as 0 |
| StdTypes.IntoIntInjective | src/stdlib/str.c:36-72 | distinct ints have distinct numerals |
| StdTypes.StdBool | src/stdlib/types.c:58-62 | bool() yields the argument's truthiness and gives up its count |
| StdTypes.ConversionsIdempotent | src/stdlib/types.c:13-62 | bool() keeps truthiness; int() always yields an int, returns an int unchanged and is idempotent |
| StdArray.SlotRefsRepeat | src/stdlib/array.c:24-27 | k slots holding one value hold k copies of its references |
| StdArray.PushCopiesAsWritten | src/stdlib/array.c:24-27 | as written, the loop leaves times copies of the element in the array (none for a negative count) and takes two counts per copy |
| StdArray.PushCopies | src/stdlib/array.c:24-27 | the corrected loop leaves times copies of the element in the array and takes one count per copy |
| StdArray.RepeatAsWritten | src/stdlib/array.c:14-35 | as written: with an int count a fresh array of count 1 holding times copies, the element having taken two counts per copy and kept its argument count; otherwise none, both arguments given up |
| StdArray.Repeat | src/stdlib/array.c:14-35 | with an int count a fresh array of count 1 holding times copies, one count per copy taken and the argument's count given up; otherwise none, both arguments given up |
| StdArray.RepeatKeepsBalance | src/stdlib/array.c:14-35 | the corrected repeat turns the argument's count into exactly the counts of the new array's slots |
| StdArray.RepeatAsWrittenLeaks | src/stdlib/array.c:24-27 | as written, a struct element ends with times + 1 more counts than it has holders |
| StdArray.CopiesCount | src/stdlib/array.c:24-27 | k copies of one reference count it k times |
| StdArray.Coerce | src/core/rt/au_array.c:85-90 | only a struct value can be an array |
| StdArray.Push | src/stdlib/array.c:37-52 | on an array the item is appended and the array value returned with the counts unchanged overall; on anything else the result is none and the array argument's count is given up |
| StdArray.PopGuard | src/stdlib/array.c:54-58 | a non-array argument gives none and is given up; an array passes the guard with the counts unchanged |
| StdArray.PushKeepsBalance | src/stdlib/array.c:45-47 | the item's argument count becomes the count of its new slot |
| StdArray.NonStructIsNotArray | src/stdlib/array.c:39-41 | push and pop on a value that is not a struct take the none path |
| GenTests.Split | gen_tests.py:55 | str.split on one separator yields at least one piece, and no piece holds the separator |
| GenTests.JoinSplit | gen_tests.py:55 | joining the pieces of a split with the separator gives back the string |
| GenTests.SplitJoin | gen_tests.py:55 | splitting the join of separator-free pieces gives back the pieces |
| GenTests.SplitPiece | gen_tests.py:62 | a string without the separator splits into itself alone |
| GenTests.SplitBefore | gen_tests.py:67 | a separator after a separator-free prefix splits off exactly that prefix |
| GenTests.RStrip | gen_tests.py:44 | rstrip keeps a prefix that ends in no white space and drops only white space |
| GenTests.RStripUnique | gen_tests.py:44 | those properties determine the stripped line exactly |
| GenTests.CheckFor | gen_tests.py:29-38 | a check exists exactly for the types int, float, bool and str, any other type raising NotImplementedError with its name; int and str checks compare the contents, a bool check is true exactly for "true" |
| GenTests.DecodeItems | gen_tests.py:61-64 | the items of an array line decode to one check per item, in order |
| GenTests.DecodeFixture | gen_tests.py:43-70 | a fixture decodes exactly when every stripped line does, to one case per line with case i from line i; a failure is the failure of some line |
| GenTests.ItemTexts | gen_tests.py:61-62 | the item texts of an array are one per item |
| GenTests.DecodeScalarLine | gen_tests.py:67-69 | the line written for a scalar check decodes back to that check |
| GenTests.DecodeArrayLine | gen_tests.py:54-64 | the line written for an array's checks decodes back to those checks, each at its index |
| GenTests.ArrayLineSplits | gen_tests.py:55 | the pieces of an array line after its "array" tag are the item texts |
| GenTests.PrefixSplits | gen_tests.py:54-55 | the pieces after the "array;" prefix are the pieces of the rest |
| GenTests.ItemTextsPlain | gen_tests.py:55 | no item text holds the ';' the line is split on |
| GenTests.DecodeTexts | gen_tests.py:61-64 | the item texts of a list of checks decode back to those checks |
| GenTests.SplitsInTwo | gen_tests.py:62-67 | a type name and its contents joined by the separator split back into exactly those two |
| GenTests.CheckForNames | gen_tests.py:29-38 | the check built from a check's own type name and contents is that check |
| GenTests.EmptyArrayLineFails | gen_tests.py:55-62 | the line "array;" holds one empty item, whose split into a type and contents fails to unpack |
| GenTests.Chars | gen_tests.py:37 | the text of a byte string has one character per byte with the same code |
| GenTests.IntCheckExact | gen_tests.py:31 | an int check written from n's numeral accepts exactly the int n |
| GenTests.Checker.constructor | gen_tests.py:50 | a fixture's cursor starts at 0 |
| GenTests.Checker.CheckAsWritten | gen_tests.py:51-73 | as generated: the value is checked against the case at the cursor and, since an array case has no break, against every following case up to the next scalar one; the cursor advances exactly when all pass |
| GenTests.Checker.Check | gen_tests.py:51-73 | with a break after every case: the value is checked against the case at the cursor only (nothing past the last case), and the cursor advances exactly when it passes |
| GenTests.FallThroughAtScalar | gen_tests.py:67-70 | at a scalar case, or past the end, the switch as generated checks what the corrected one does |
| GenTests.ArrayCaseFallsThrough | gen_tests.py:56-66 | a fixture printing the array [1] and then 2 meets the array case, yet the generated switch aborts on it |

## Left out

- Floating point: the double branches of the value operators and of `au_value_is_truthy`, double literals, `au_std_float` and the math library are not modelled; a double is a value with no operations, and the int the C cast of a double gives is a parameter of StdTypes.StdInt.
- AuString.Cmp: memcmp's value, which au_string_cmp returns as it is, is modelled by its sign only (-1, 0 or 1); C leaves its magnitude to the library, so only the sign is a promise. AuString.Memcmp states the same.
- AuString.Add: when the two lengths sum past UINT32_MAX the source allocates by the wrapped sum and copies past the allocation (undefined behaviour); the model reports that case instead of modelling the overrun.
- Hash.AuHashU32, Hash.AuHashU64 and the 64-bit mix are stated as definitions only: the source promises nothing about them beyond being total functions of their inputs.
- Dict.Dict.Get, Dict.Dict.Insert and Dict.Dict.Resize: value reference counts are not tracked by the dictionary. The source takes a count on the value a lookup returns (src/core/rt/au_dict.c:173), on the key and value an insert stores (207-208), and gives up the new key's and the old value's counts on a duplicate key (236-237). Its resize re-inserts each entry, taking counts on key and value, but gives back only the key's (312-313), so every resize leaks one count per stored value.
- Dict.Dict.Resize and HmVars.Vars.Resize: allocation of the new buckets (`au_data_calloc`, `calloc`) is taken to succeed; the source also fails, changing nothing, when it returns NULL.
- Dict.Dict.constructor: the hash of a key is a function fixed when the dictionary is made, so the hashing of values is not tied to `au_value_hash` and its float branch.
- HmVars.Vars.Add: the empty key cannot be told apart from an empty bucket in this layout (an empty bucket has key length 0), so add and get of the empty key are excluded; ThreadLocal.ThreadLocal.ReserveModule inherits the same restriction for the module path.
- BcVars.Index: the bucket is the hash modulo the bucket count rather than `hash & (len - 1)`; the two agree for the power-of-two counts the table keeps, which is stated but not proved.
- Expr.OpcodeByte: the bitwise opcodes used by expr.c are missing from the opcode enum, so they are numbered 73 to 77 here.
- Expr.EmitIntLiteral: an int literal too large for int32 overflows in C (undefined behaviour); it is modelled as wrapping.
- Expr.Unescape: the code point of a character string is taken from the raw token text, not through the UTF-8 decoder.
- Stmt: `print`, `raise`, `import`, `class`, `def`, `const` and the other statements that emit no jumps are modelled as opaque straight-line code with its own bytecode and source map.
- Lexer.Lexer.Peek: the fixed LOOKAHEAD_MAX size of the lookahead buffer is not modelled; the buffer is a sequence.
- Parse.TopParser.Exec: statements are given already split into their parsed form, so the statement loop does not call the lexer; the registers their expressions allocate are given as each statement's highest register (Parse.Statement), which is all of that allocation that reaches max_register; AU_SM_FUNC_ID_MAIN is the constant -1.
- Resolve.ResolveIdentifier: the source walks the scope stack through stale `vars.len`/`data` names; it is modelled as a stack of scopes searched innermost first.
- The older copies of the lexer, parser, program and value headers that newer files supersede (src/core/lexer.c, src/core/parser/parser.c, src/core/program.c and others) are not part of this model.
- StdStr.StrIntoInt: negating INT32_MIN in into() is undefined behaviour in C; the model uses the mathematical absolute value. The realloc growth of into()'s buffer is not modelled.
- The str.c functions `is`, `char`, `ord`, `bytes` and `code_points` are not part of this model.
- StdTypes.StdInt: digit accumulation that overflows int32 is undefined behaviour in C; it is modelled as wrapping.
- StdArray.PopGuard: `au_obj_array_pop`'s definition is not part of this model, so only the argument check is modelled.
- StdArray.Coerce: the struct's virtual-table check is modelled as a map from the addresses of the heap's arrays.
- Objects.Refs: string reference counts are not tracked; a string is a byte value, and counts are kept for struct objects only.
- Objects.ObjClass.constructor: `au_obj_class_new` reads the interface's map through a stale `entries_occ` name; the slot count is the map's item count.
- Fns.Call: a fuel bound limits the steps through importer stubs and dispatch functions; a cycle of stubs loops forever in the source and ends out of fuel here.
- ThreadLocal: `print_fn`, the stack bounds, `install_stdlib`, `au_vm_thread_local_get` and the rest of `au_vm_thread_local_del` beyond the constant cache are not modelled.
- Modules: `dlopen`, `dlsym`, the loader and the outcome of reading or mapping a file are parameters; NUL terminators of C strings are not modelled.
- Malloc: the addresses malloc returns are parameters; the delete callback that free runs is reported as a flag.
- GenTests: reading fixtures, writing tests.c and compiling it are not modelled. The generated C calls a two-argument `au_obj_array_get`, which no longer exists; element access is modelled as indexing. Int checks compare canonical numerals, float checks test only the type, and string checks compare one byte per character.
- The interpreter's dispatch loop, its garbage-collected allocator and the concurrency of the fixture runner are not part of this model.

## Findings

| source | as written | input that shows it | evidently intended | confidence | as-written member | corrected member |
|---|---|---|---|---|---|---|
| src/core/rt/value/main.h:85-99 | the error value is the pattern 0x7ff0ffffffffffff, whose tag bits are 0, so its type reads as a double | the error value itself: its type is DOUBLE | a pattern whose tag is the error tag, so that only the error value has type ERROR | not executed | NanBox.ErrorTypeAsWritten | NanBox.ErrorTypeTagged |
| src/core/utf8.h:81-110 | after a partial match the needle index is not reset before the next haystack position | haystack "aab", needle "ab": the result is offset 2 | the first offset where the needle occurs, 1 | not executed | Utf8.StrAsWrittenMissesRestart | Utf8.StrAscii |
| src/core/rt/au_dict.c:339-340 | the doubled size is computed in uint32 and wraps | size 2^31: the grown size is 0 | a size that never shrinks on growth | not executed | Dict.GrowSizeAsWrittenShrinks | RobinHood.GrowSize |
| src/core/rt/au_dict.c:329 | APPROX_85_PERCENT of the uint32_t size is computed modulo 2^32, from 4,936,745 buckets on | 5,242,880 buckets: the grow threshold is 260,096 items instead of 4,454,400 | a threshold of about 85% of the buckets | not executed | Dict.ThresholdsAsWrittenWrap | RobinHood.Approx85 |
| src/core/rt/au_dict.c:356 | APPROX_40_PERCENT of the uint32_t size is computed modulo 2^32, from 10,501,143 buckets on | 16,777,216 buckets: the shrink threshold is 2,506,752 items instead of 6,701,056 | a threshold of about 40% of the buckets | not executed | Dict.ThresholdsAsWrittenWrap | RobinHood.Approx40 |
| src/core/rt/au_string.c:24 | the uint32 lengths are summed modulo 2^32 and the allocation is sized by that sum | lengths 2^31 and 2^31: a length-0 allocation, then 2^31 bytes copied into it | a concatenation that holds both strings or is refused | not executed | AuString.AddLenWraps | AuString.Add |
| src/core/parser/lexer.c:280-324 | peeking one past the buffered entries calls au_lexer_next_, which drains the buffer, so the new token overwrites slot 0 | source "a b": peek 0, peek 1, then peek 0 again gives b | peek k always gives the token k places ahead | not executed | Lexer.PeekAsWrittenLosesFirst | Lexer.ChainAhead |
| src/core/parser/impl/expr.c:280 | "-" is declared right-associative | a-b-c parses as a-(b-c) | left-associative subtraction, (a-b)-c | not executed | Expr.MinusAsWritten | Expr.ShuntIsPrecedenceParse |
| src/core/parser/impl/stmt.c:641-649 | the JREL after an if body is left out when the last instruction emitted is a return, even when that return is inside a nested if | `if (a) { if (b) { return x; } } else { y = v; }`: when a holds and b does not, control falls into the else branch | the exit jump is left out only when the body itself ends in a return | not executed | Stmt.AsWrittenTarget | Stmt.CorrectedTargets |
| src/core/rt/au_tuple.c:54-56 | get rejects index > len | index == len reads one slot past the end | get rejects index >= len | not executed | Objects.TupleGetPastEnd | Objects.ObjTuple.Get |
| src/core/rt/au_array.c:74-76 | set drops a count on the new value after storing it instead of on the old one | a struct stored over none in a one-slot array: its count falls below its holders | the old value's count is given up and the new one keeps its argument count | not executed | Objects.StoreAsWrittenUnbalanced | Objects.StoreKeepsBalance |
| src/core/vm/exception.c:28 | both bounds of an entry are inclusive, but bc_to is the end of the statement's bytecode | entries 0..4 and 4..8, pc 4: the first statement's position | the statement whose bytecode holds pc, the second | not executed | Exception.BoundaryGoesToPrevious | Exception.ResolvesToOwner |
| src/stdlib/str.c:47-71 | the digit loop runs while n is not 0 | into(0) gives the empty string | "0" | not executed | StdStr.IntoZeroIsEmpty | StdStr.IntoIntAgrees |
| src/stdlib/array.c:24-27 | each copy takes a count before au_obj_array_push takes another, and the argument's count is kept | repeat(s, 1) on a struct s: two counts more than holders | one count per slot, the argument's count given up | not executed | StdArray.RepeatAsWrittenLeaks | StdArray.RepeatKeepsBalance |
| gen_tests.py:53-66 | the generated switch has no break after an array case | a fixture printing the array [1] and then 2 aborts on the array | each case checks only its own value | not executed | GenTests.ArrayCaseFallsThrough | GenTests.FallThroughAtScalar |
