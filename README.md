# Structured binary serialisation of lattigo, modelled in Dafny

This project models the serialisation core of the lattigo homomorphic-encryption
library. Three files are covered:

- `utils/structs/matrix.go`: the generic ragged container `Matrix[T]`. It can
  be deep-copied, measured, written to a `buffer.Writer`, read back from a
  `buffer.Reader` and compared row by row.
- `core/rgsw/elements.go`: the RGSW `Ciphertext`, a fixed pair of gadget
  ciphertexts written back to back, and the RGSW `Plaintext` view.
- `rlwe/secretkey.go`: the RLWE `SecretKey`, a single QP polynomial whose
  levels, size and bytes the key reports as its own.

The wire format:
- every length header is eight bytes (`buffer.WriteAsUint64`); the model fixes
  their order as little-endian, since `utils/buffer` is not part of this model;
- a `Vector[T]` is `[count][element_0]...`;
- a `Matrix[T]` is `[rowCount][row_0]...`, each row in the vector layout;
- composite objects add no framing of their own.

An element type (a ring polynomial, a gadget ciphertext, a numeric primitive)
is known only through a `Codec`:
- its `BinarySize`;
- the bytes its `WriteTo` emits;
- what its `ReadFrom` makes of the bytes ahead of it.

Two predicates state the element laws the containers rely on. `Bounded` says a
decoder never claims more bytes than it was given. `Lawful` adds two things:
the size is the length of the bytes, and decoding an encoding, whatever follows
it, gives the value back after consuming exactly those bytes. Every round-trip
result is proved from these laws alone.

The files and their modules:

| file | module | contents |
|---|---|---|
| `wire.dfy` | `Wire` | bytes, errors, the `Codec` abstraction, the eight-byte integer codec, Go's `int(uint64)` |
| `buffer.dfy` | `Buffer` | `buffer.Writer` (a fixed-room in-memory sink) and `buffer.Reader` (a position over a byte sequence) |
| `sequences.dfy` | `Sequences` | runs of elements written back to back, and the sequential reader that stops at the first error |
| `vectors.dfy` | `Vectors` | the `Vector[T]` layout that each matrix row uses |
| `matrices.dfy` | `Matrices` | `Matrix[T]` as a class whose `ReadFrom` resizes and refills its backing array in place |
| `rgsw.dfy` | `Rgsw` | the RGSW ciphertext as a class with two halves, and the plaintext view |
| `rlwe.dfy` | `Rlwe` | the secret key as a class holding one QP polynomial |

The receivers that Go methods update in place are classes: `Matrix`,
`Ciphertext` and `SecretKey`. Their methods state the new state in full. Each
operation is tied to a specification function (`Matrices.Encode`/`Decode`,
`Rgsw.Encode`/`Decode`) or to the element codec, and the round trips are
proved about those functions.

Where one might expect otherwise, the model follows the code:
- Errors from a matrix row name the element type, not the row index.
- `Matrix.WriteTo` flushes only when every write succeeded.
- `Ciphertext.WriteTo` never flushes on the `buffer.Writer` path.
- A `Matrix.ReadFrom` that fails on a row leaves the receiver resized, with
  the rows already read in place. It neither restores the old value nor fills
  every slot.

## Model

| member | source | states |
|---|---|---|
| Wire.DecodeUint64Encoded | utils/structs/matrix.go:129-131 | the eight-byte header of any `uint64`, followed by anything, reads back as that value and consumes exactly eight bytes |
| Wire.Uint64CodecLawful | utils/structs/matrix.go:87-90 | the row-count header (and a `uint64` element) keeps the element laws: its size is eight, and its bytes read back exactly |
| Wire.ToInt64 | utils/structs/matrix.go:127-129 | `ReadAsUint64[int]` reads the header as a two's-complement `int`: it is in the 64-bit signed range, it is non-negative exactly when the `uint64` is below 2^63 (and then equal to it), and otherwise it is the value minus 2^64 |
| Wire.LittleEndianRoundTrip | utils/structs/matrix.go:87 | the `k` little-endian bytes of any `x < 256^k` read back as `x` |
| Wire.DecodeUint64 | utils/structs/matrix.go:129-131 | reading a header never consumes more bytes than there are |
| Sequences.DecodeElems | utils/structs/matrix.go:139-145 | reading `k` rows in order either succeeds with exactly `k` rows, or stops with fewer than `k` and an error; it never consumes more than it was given |
| Sequences.ElemsEncodeLength | utils/structs/matrix.go:60-63 | the summed `BinarySize` of the rows is the length of their bytes |
| Sequences.ElemsRoundTrip | utils/structs/matrix.go:92-98 | the rows written back to back, followed by anything, read back as the same rows and consume exactly their bytes |
| Sequences.DecodeElemsStop | utils/structs/matrix.go:140-143 | once a read has failed, no later row is read: the result stays what it was at the failure |
| Vectors.VecCodecLawful | utils/structs/matrix.go:62 | a row in the `Vector[T]` layout keeps the element laws whenever its elements do |
| Vectors.VecRoundTrip | utils/structs/matrix.go:93 | a row's bytes, followed by anything, read back as the same row and consume exactly its bytes |
| Vectors.VecCodecBounded | utils/structs/matrix.go:140 | a row read never claims more bytes than it was given |
| Matrices.Decode | utils/structs/matrix.go:120-147 | what `ReadFrom` makes of its input never consumes more bytes than there are |
| Matrices.EncodeLength | utils/structs/matrix.go:56-69 | `WriteTo` emits exactly `BinarySize` bytes, and that size is `8 + Σ row BinarySize` |
| Matrices.RoundTrip | utils/structs/matrix.go:120-147 | `ReadFrom` on the bytes `WriteTo` emitted, followed by anything, gives back the same rows and consumes exactly `BinarySize` bytes |
| Matrices.EmptyMatrix | utils/structs/matrix.go:56-66 | an empty matrix has size 8, is eight zero bytes, and reads back as an empty matrix after consuming those eight bytes |
| Matrices.ResizeAsWritten | utils/structs/matrix.go:133-137 | the resize step as written, for an allocation limit `limit`. It reuses the array exactly when the row count is non-negative and within the capacity. It reallocates exactly when the count is above the capacity but within the limit. `make` panics exactly when the count is above both. The slice expression panics exactly when the count is negative |
| Matrices.Resized | utils/structs/matrix.go:133-137 | for a non-negative row count the backing array is kept when its capacity suffices, and otherwise replaced by that many empty rows |
| Matrices.Matrix.constructor | utils/structs/matrix.go:16 | a matrix is a slice of rows over a backing array of at least its length |
| Matrices.Matrix.CopyNew | utils/structs/matrix.go:20-52 | the copy is a new object with a backing array of its own, holding exactly the same rows |
| Matrices.Matrix.BinarySize | utils/structs/matrix.go:56-66 | the loop computes `8 + Σ row size`, which for lawful elements is the length of the matrix's bytes |
| Matrices.Matrix.WriteTo | utils/structs/matrix.go:81-100 | the writer receives the longest prefix of the matrix's bytes that fits, and the count returned is its length. The error is nil exactly when everything fit; otherwise it is the short write, wrapped as a header or a row failure. The writer is flushed once, only on success |
| Matrices.Matrix.WriteFramed | utils/structs/matrix.go:86-100 | the same, for any eight-byte header and any row layout: the header first, then the rows, then the flush on success |
| Matrices.Matrix.WriteRows | utils/structs/matrix.go:92-98 | the loop over the rows emits the longest prefix of their bytes that fits and stops at the first short write, without flushing |
| Matrices.Matrix.ReadFrom | utils/structs/matrix.go:120-147 | the bytes consumed, the error and the rows agree with `Decode`. A failed or negative header leaves the receiver untouched. Otherwise the receiver has the header's length, and its backing array holds the rows read followed by what the resized array held beyond them |
| Matrices.Matrix.ResizeAndReadRows | utils/structs/matrix.go:133-147 | after the resize, row `i` is read into slot `i` in turn; a failed row stops the loop, wrapped as a row error, and the slots not reached keep their contents |
| Matrices.Matrix.ReadRows | utils/structs/matrix.go:139-145 | the loop over the slots agrees with the sequential reader: the rows read replace the first slots, and the rest are unchanged |
| Matrices.Matrix.MarshalBinary | utils/structs/matrix.go:156-160 | writing into a buffer of exactly `BinarySize` bytes gives the matrix's bytes, with no error |
| Matrices.Matrix.UnmarshalBinary | utils/structs/matrix.go:165-168 | reading from a buffer over `p` gives the error and the rows of `Decode(p)`. Whatever the outcome, the receiver ends as `ReadFrom` leaves it: untouched after a failed or negative header, and otherwise resized to the header's count, with the rows read at the front |
| Matrices.MarshalThenUnmarshal | utils/structs/matrix.go:156-168 | the bytes `MarshalBinary` produces, given to `UnmarshalBinary` on any matrix, make it hold the same rows, with no error |
| Matrices.Matrix.Equal | utils/structs/matrix.go:172-188 | as written: true exactly when `other` has at least as many rows and every row of the receiver equals the row of `other` at the same index. A shorter `other` is accepted whenever one of its rows differs, since the short-circuiting `&&` stops there |
| Matrices.EqualStopsAtFirstMismatch | utils/structs/matrix.go:183-188 | `Equal` of a two-row matrix against a one-row matrix whose row differs returns false, without indexing past the shorter one |
| Matrices.Matrix.EqualStrict | utils/structs/matrix.go:183-188 | with the row counts compared first: true exactly when the two matrices hold the same rows |
| Matrices.RowsAgreeSameLength | utils/structs/matrix.go:183-188 | for matrices with equal row counts, the row-wise comparison is structural equality |
| Matrices.EqualIgnoresExtraRows | utils/structs/matrix.go:183-188 | the row-wise comparison holds between the empty matrix and a matrix with one row, although they differ |
| Matrices.NegativeCountPanicsAsWritten | utils/structs/matrix.go:129-137 | a header of eight `0xff` bytes reads as the `int` -1, and the resize step as written panics on it for any capacity and allocation limit |
| Matrices.NegativeCountRejected | utils/structs/matrix.go:129-137 | the model reports that header as a negative-length error after consuming its eight bytes |
| Matrices.HugeCountPanicsAsWritten | utils/structs/matrix.go:129-134 | a header holding 2^62 reads as that `int`, and on a receiver of smaller capacity `make` panics for any allocation limit below it |
| Matrices.HugeCountRejected | utils/structs/matrix.go:129-147 | the model reports that header, with nothing after it, as a failed read of the first row (a short read) after consuming its eight bytes |
| Rgsw.Decode | core/rgsw/elements.go:80-90 | reading half 0 then half 1 never consumes more than there is |
| Rgsw.RoundTrip | core/rgsw/elements.go:80-109 | the two halves' bytes, followed by anything, read back as the same two halves and consume exactly those bytes |
| Rgsw.NewPlaintext | core/rgsw/elements.go:112-119 | the plaintext carries the gadget plaintext's `Value`, and the error is passed through unchanged |
| Rgsw.Ciphertext.LevelQ | core/rgsw/elements.go:17-19 | the Q level is read from half 0: when the allocator keeps levels, it is the Q level half 0 was allocated at |
| Rgsw.Ciphertext.LevelP | core/rgsw/elements.go:22-24 | the P level is read from half 0: when the allocator keeps levels, it is the P level half 0 was allocated at |
| Rgsw.Ciphertext.constructor | core/rgsw/elements.go:17-34 | both halves are allocated from the same arguments; when the allocator keeps levels, `LevelQ` and `LevelP` (read from half 0) are the requested levels |
| Rgsw.Ciphertext.BinarySize | core/rgsw/elements.go:37-39 | the sum of the halves' sizes is the length of the ciphertext's bytes |
| Rgsw.Ciphertext.WriteTo | core/rgsw/elements.go:52-62 | the writer receives the longest prefix of half 0 then half 1 that fits, and the count returned is its length. The error is nil exactly when both fit. When half 0 does not fit, nothing of half 1 is written |
| Rgsw.Ciphertext.ReadFrom | core/rgsw/elements.go:80-90 | the bytes consumed, the error and the halves agree with `Decode`. Half 0 is replaced exactly when it reads; after any error, half 1 keeps its value |
| Rgsw.Ciphertext.MarshalBinary | core/rgsw/elements.go:98-102 | writing into a buffer of exactly `BinarySize` bytes gives the ciphertext's bytes, with no error |
| Rgsw.Ciphertext.UnmarshalBinary | core/rgsw/elements.go:106-109 | reading from a buffer over `p` gives the error and the halves of `Decode(p)`. Half 0 is replaced exactly when it decodes, and after any error half 1 keeps its value |
| Rgsw.MarshalThenUnmarshal | core/rgsw/elements.go:98-109 | the bytes `MarshalBinary` produces, given to `UnmarshalBinary` on any ciphertext, reproduce both halves, with no error |
| Rlwe.SecretKey.constructor | rlwe/secretkey.go:12-19 | `NewSecretKey` holds the zero polynomial it is given |
| Rlwe.SecretKey.Equal | rlwe/secretkey.go:21-23 | true exactly when the Q parts are equal and the P parts are both absent or both present and equal |
| Rlwe.SecretKey.EqualKeysAlike | rlwe/secretkey.go:21-51 | equal keys report the same levels, the same size and the same bytes |
| Rlwe.SecretKey.EqualAfterAssign | rlwe/secretkey.go:17-23 | two new keys holding polynomials `p` and `q` are `Equal` exactly when `p == q`; once one is given the other's polynomial, they are `Equal` |
| Rlwe.SecretKey.LevelQ | rlwe/secretkey.go:26-28 | the level of the Q part, which is never negative |
| Rlwe.SecretKey.LevelP | rlwe/secretkey.go:32-38 | the level of P when P is present. Since levels are never negative, the result is -1 exactly when P is absent |
| Rlwe.SecretKey.CopyNew | rlwe/secretkey.go:41-46 | no key gives no key; otherwise the copy is a new key, `Equal` to the original |
| Rlwe.SecretKey.BinarySize | rlwe/secretkey.go:49-51 | the polynomial's size is the length of the key's bytes |
| Rlwe.SecretKey.Read | rlwe/secretkey.go:75-77 | a slice long enough receives the key's bytes at its front, the rest untouched, and the count is their length; a shorter slice is refused and left as it was |
| Rlwe.SecretKey.MarshalBinary | rlwe/secretkey.go:54-60 | a zeroed slice of `BinarySize` bytes is filled by `Read`; no slice on error. For a lawful codec it is exactly the key's bytes |
| Rlwe.SecretKey.Write | rlwe/secretkey.go:99-101 | the bytes consumed and the error come from decoding the polynomial; the key takes the polynomial exactly when it decodes, and keeps its value otherwise |
| Rlwe.SecretKey.UnmarshalBinary | rlwe/secretkey.go:81-84 | `Write` with only the error kept: the key takes the decoded polynomial, or keeps its value on error |
| Rlwe.SecretKey.WriteTo | rlwe/secretkey.go:69-71 | the writer receives the longest prefix of the key's bytes that fits; the error is nil exactly when all of them fit |
| Rlwe.SecretKey.ReadFrom | rlwe/secretkey.go:93-95 | the bytes consumed and the error come from decoding the bytes ahead of the reader; the key takes the polynomial exactly when it decodes |
| Rlwe.SecretKey.MarshalThenUnmarshal | rlwe/secretkey.go:54-60 | the bytes `MarshalBinary` produces, given to `UnmarshalBinary` on any key, make it equal to the original, with no error |
| Rlwe.SecretKey.ReadThenWrite | rlwe/secretkey.go:75-101 | a slice filled by `Read`, trailing bytes included, given to `Write` on any key, reproduces the original after consuming exactly `BinarySize` bytes |

## Left out

- The `bufio` fallbacks (the `default` branches of `WriteTo` and `ReadFrom`) are not modelled. Only the `buffer.Writer`/`buffer.Reader` branches are. `utils/buffer` is not part of this model: its writer is an in-memory sink with fixed room whose `Flush` cannot fail, and its reader is a position over a byte sequence.
- The type switch over element kinds, and the panic for an element type without the needed capability, are not modelled. Every element type is known through a `Codec`, so the unsupported case cannot arise.
- Float element kinds are not modelled. The 64-bit integer kinds use `Wire.Uint64Codec`. The narrower kinds (`uint8` to `uint32`, `int8` to `int32`) are covered only through an abstract `Lawful` codec; their widths are not modelled.
- `Vector[T]` is not part of this model beyond its `8 + Σ element size` layout. Its own `CopyNew`, `Equal` and stream methods are represented by that layout and by structural equality of rows.
- Matrices.Matrix: the Go slice is modelled as a sequence (`backing`, standing for the backing array up to its capacity) and a length. Aliasing between slices that share a backing array is not captured. Rows are read into a local sequence that is then stored, rather than updated in place.
- Matrices.Matrix.ReadFrom: a row whose read fails is treated as not written, so its slot keeps its contents. `Vector[T].ReadFrom` may in fact leave that slot partly overwritten.
- Rgsw.Ciphertext.ReadFrom: a half whose read fails is treated as keeping its value. The gadget ciphertext's own partial overwrite is not part of this model.
- Rlwe.SecretKey.Write: a polynomial that fails to decode is treated as leaving the key's value as it was. `ringqp.Poly.Write` is not part of this model.
- Rlwe.SecretKey.Read: the short-buffer check (refused, slice untouched) is assumed of `ringqp.Poly.Read`, which is not part of this model.
- Rgsw.Ciphertext.WriteTo: each half is written with a single `Write` and no `Flush`; the gadget ciphertext's own sequence of writes is not part of this model. Rlwe.SecretKey.WriteTo treats the polynomial the same way.
- Byte counts (`n`) are unbounded naturals, so Go's `int64` overflow of the running count is not modelled.
- Error values are a datatype recording where an error was wrapped (`buffer.ReadAsUint64[int]`, `structs.Vector[T].WriteTo`, …). The message text and the element type name are not modelled. Like the code, the model attaches no row index.
- `cmp.Equal` in `SecretKey.Equal` is modelled as structural equality of the polynomial.
- Ring polynomial internals, `rlwe.NewGadgetCiphertext` and `rlwe.NewGadgetPlaintext` are parameters: a level function, a codec and an allocator. `params.RingQP().NewPoly()` is the polynomial given to the constructor.
- Rgsw.NewPlaintext: the model assumes `rlwe.NewGadgetPlaintext` always returns a gadget plaintext, even with an error. A nil one, whose `Value` the code would dereference, is not modelled.
- Matrices.Matrix.Equal: requires that `other` has at least as many rows as the receiver or that one of its rows differs from the receiver's. The remaining case, a shorter `other` all of whose rows match, indexes out of range and panics; that panic is not modelled.
- Matrices.ResizeAsWritten and Matrices.Matrix.ReadFrom: a row count that `make` cannot allocate panics in Go, and a smaller one that still exceeds memory ends the process. The model has no allocation limit: `ReadFrom` resizes for any non-negative count and reports the first row that fails to read. Only `ResizeAsWritten` and `HugeCountPanicsAsWritten` take the limit into account.
- Vectors.VecDecode: refuses a row whose element count reads as a negative `int`. This is assumed of `Vector[T].ReadFrom`, which is not part of this model; it may instead panic like the resize step of `Matrix[T].ReadFrom`.
- Wire.EncodeUint64 and Wire.DecodeUint64: the byte order of `buffer.WriteAsUint64` and `buffer.ReadAsUint64` is fixed as little-endian. `utils/buffer` is not part of this model.

## Findings

| source | as written | input that shows it | evidently intended | confidence | as-written member | corrected member |
|---|---|---|---|---|---|---|
| utils/structs/matrix.go:183-188 | `Equal` compares only the rows of the receiver and never the row counts | the empty matrix compared with a one-row matrix: `Equal` returns true | a deep equality, true only for matrices with the same rows | not executed | Matrices.EqualIgnoresExtraRows | Matrices.Matrix.EqualStrict |
| utils/structs/matrix.go:129-137 | a row count of 2^63 or more reads as a negative `int`, passes `cap(*m) < size`, and `(*m)[:size]` panics | a header of eight `0xff` bytes, read as -1 | such a header is reported as an error, as for a short read | not executed | Matrices.NegativeCountPanicsAsWritten | Matrices.NegativeCountRejected |
| utils/structs/matrix.go:129-134 | a non-negative row count is trusted before any row is read, and `make([][]T, size)` is called for it | a header holding 2^62 with nothing after it: `make` panics (or, for smaller counts above the memory available, the process runs out of memory) | a count the input cannot hold is reported as an error | not executed | Matrices.HugeCountPanicsAsWritten | Matrices.HugeCountRejected |
