# LDC LLVM code-generation helpers: a Dafny model

LDC, the LLVM-based D compiler, collects general code-generation helpers in
`gen/llvmhelpers.h`. Most of them emit LLVM IR through the builder and have
their bodies in files that are not part of this model. This project models the
part whose behaviour can be read from the header itself:

- `EnclosingTryFinally`, the record that pairs a try-finally statement with
  the landing-pad block used to track try-finally scopes. It is a datatype.
- `realignOffset`, which rounds an aggregate member offset up to the closest
  aligned offset. It is a pure function of the offset and a positive
  alignment.
- `tokToIcmpPred`, which converts a comparison token into either a constant
  result or an LLVM `icmp` predicate by writing through one of two
  out-pointers. The out-pointers are a small class. The outcome is the
  datatype `Const(bool) | Pred(p)`. The conversion table is a parameter.
- `toConstantArray`, the template that serialises a character buffer into an
  LLVM constant array. It is a method with a loop that builds the element
  sequence, proved against a specification function.
- `getOrCreateGlobal`, the lookup-or-insert on a module's global variables
  by mangled name. The module is a class that holds a `map` from name to a
  `GlobalRecord`, and the method updates that map in place. A pure function
  states the same step on table values, and the lemmas are about it.

LLVM types, constants, basic blocks, linkage kinds and frontend statements
are opaque values known only by identity. A character value is an `int`. A
constant integer holds its type and its unsigned bit pattern.

Everything is in one module, `LlvmHelpers`, in `llvmhelpers.dfy`.

## Model

| member | source | states |
|---|---|---|
| `LlvmHelpers.NewEnclosingTryFinally` | gen/llvmhelpers.h:31-32 | the constructor stores the given try-finally statement and landing pad and nothing else |
| `LlvmHelpers.RealignOffset` | gen/llvmhelpers.h:151-153 | the result is at least the offset, less than the offset plus the alignment, and a multiple of the alignment |
| `LlvmHelpers.RealignOffsetIsLeast` | gen/llvmhelpers.h:151-153 | no aligned offset that is at least the input is smaller than the result, so the result is the closest aligned offset |
| `LlvmHelpers.RealignAlignedOffset` | gen/llvmhelpers.h:151-153 | an offset is returned unchanged exactly when it is already aligned |
| `LlvmHelpers.RealignOffsetIdempotent` | gen/llvmhelpers.h:151-153 | realigning an already realigned offset changes nothing |
| `LlvmHelpers.RealignOffsetMonotonic` | gen/llvmhelpers.h:151-153 | realignment keeps the order of offsets |
| `LlvmHelpers.WriteOutParams` | gen/llvmhelpers.h:177-180 | a constant outcome sets only the constant out-pointer, and a predicate outcome sets only the predicate out-pointer |
| `LlvmHelpers.ReadOutParams` | gen/llvmhelpers.h:177-178 | a caller that finds the constant set uses it as the result; it finds some outcome exactly when one of the two out-pointers is set |
| `LlvmHelpers.TokToIcmpPred` | gen/llvmhelpers.h:174-180 | for a comparison token and operand signedness, the call writes the table's outcome through exactly one of the two out-pointers and leaves the other one as it was |
| `LlvmHelpers.OutParamsExclusive` | gen/llvmhelpers.h:177-178 | from unset out-pointers, exactly one of the constant and the predicate is set: never both and never neither |
| `LlvmHelpers.OutParamsRoundTrip` | gen/llvmhelpers.h:177-180 | a caller that null-initialises the constant out-pointer reads back exactly the outcome the call produced |
| `LlvmHelpers.IntConstant` | gen/llvmhelpers.h:222 | a character becomes a constant of the element type whose unsigned value is below 2 to the element width |
| `LlvmHelpers.IntConstantValue` | gen/llvmhelpers.h:222 | the constant's value is the character taken as unsigned: the character modulo 2 to the power min(element width, 64), for negative characters too |
| `LlvmHelpers.LowBitsIsMod` | gen/llvmhelpers.h:222 | keeping the low n bits of a two's-complement value, negative or not, is the same as taking it modulo 2 to the n |
| `LlvmHelpers.SignedCharTakenAsUnsigned` | gen/llvmhelpers.h:222 | a signed character of -61 in an 8-bit element is stored as 195 |
| `LlvmHelpers.IntConstantKeepsFittingValue` | gen/llvmhelpers.h:222 | a non-negative character that fits in the element width (at most 64 bits) is stored with the same value |
| `LlvmHelpers.ConstantElements` | gen/llvmhelpers.h:219-226 | the array has one element per character, or one more when null-terminated; element i is character i taken as unsigned; the extra last element is the zero constant |
| `LlvmHelpers.ToConstantArray` | gen/llvmhelpers.h:216-227 | `nullterm` defaults to true; the result has the given array type and `len + 1` elements when `nullterm` is set, otherwise `len`; element i is `str[i]` taken as unsigned, in input order; the last element is the zero constant when `nullterm` is set |
| `LlvmHelpers.ConstantElementsRoundTrip` | gen/llvmhelpers.h:219-226 | when every character fits the element width, reading the element values back gives the characters, followed by 0 exactly when `nullterm` is set |
| `LlvmHelpers.NullTerminatedLength` | gen/llvmhelpers.h:224-225 | when no character truncates to zero, the null-terminated array read as a C string has exactly as many characters as the input |
| `LlvmHelpers.GetOrCreate` | gen/llvmhelpers.h:230-238 | existing entries never change and the table only grows; a success returns the global now filed under the name, with the requested type; the call fails exactly when the name exists with another type; every global stays filed under its own name, so a returned global carries the requested name |
| `LlvmHelpers.LlvmModule.GetOrCreateGlobal` | gen/llvmhelpers.h:230-238 | `isThreadLocal` defaults to false; a returned global carries the requested mangled name and type; on a name with a matching type it returns the existing global and leaves the table unchanged; on a type mismatch it fails with a linkage conflict and leaves the table unchanged; on a new name it creates the global with the given type, constness, linkage, initialiser and thread-local flag and changes no other entry |
| `LlvmHelpers.GetOrCreateIdempotent` | gen/llvmhelpers.h:230-235 | asking again with the same name and type returns the same global and leaves the table as it was, even when constness, linkage, initialiser or thread-local flag differ |
| `LlvmHelpers.DeclareAllShares` | gen/llvmhelpers.h:234-235 | after a series of successful calls, every call got the global now filed under its name, with its requested type, and earlier globals are unchanged, so declarations that share a mangled name share one global |
| `LlvmHelpers.ConflictingTypeFails` | gen/llvmhelpers.h:231-232 | an existing name asked for with another type fails with a linkage conflict and leaves the table unchanged |

## Left out

- The IR-emitting helpers are not modelled. These are allocation, deletion, casts, assertions, binary operations, calls, variadic argument lists, inline assembly and `makeLValue`. Their bodies are not in the header, so any semantics given to them here would be invented.
- `DtoGoto` and `DtoEnclosingHandlers` are not modelled. The header does not state their cleanup emission or goto validation.
- `EnclosingTryFinally::emitCode` is not modelled. It emits IR and its body is not part of this model.
- Monitor and critical-section enter and leave are not modelled. They are runtime calls about concurrency.
- `DtoBinFloatsEquals` is not modelled. It is floating-point semantics with no body shown.
- Declaration resolution and codegen entry points, target lookup, global constructor registration and label printing are not modelled. They are frontend, LLVM or I/O plumbing.
- TokToIcmpPred: the token table is a parameter rather than a fixed table, because the header does not say which token maps to which outcome. A token outside the table is excluded by `requires`, standing for the header's statement that the operation is a comparison.
- RealignOffset: it takes one positive alignment. The header's reconciliation of the D alignment with LLVM's alignment of the same type is not modelled, because that logic is not in the header.
- RealignOffset: offsets are unbounded naturals. A `size_t` wrap-around for offsets within one alignment of 2^64 is not modelled.
- LlvmHelpers.LlvmModule.GetOrCreateGlobal: the type-mismatch path returns `Err(LinkageConflict(name))`. The compiler reports an error at the source location and aborts instead. The header says only that the types are checked, so the failure is modelled as an error value.
- LlvmHelpers.LlvmModule.GetOrCreateGlobal: LLVM's renaming of a new global whose name clashes with a function or an unnamed global, and the choice of thread-local model for a thread-local global, are not modelled. The record keeps a thread-local flag only.
- ToConstantArray: LLVM's own check that the array type's element count and element type agree with the built elements is not modelled. The array type is stored as given.
