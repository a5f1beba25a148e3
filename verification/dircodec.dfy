/**
 * The records of a directory block (ext2_dir_entry_2): a 32-bit inode
 * number, a 16-bit record length, an 8-bit name length, an 8-bit file
 * type and the name, chained by record length through one 1024-byte block.
 */
module Directories {
  import opened Bytes
  import opened Errors
  import opened Layout

  const EntryHeaderSize: nat := 8
  const FileTypeRegular: nat := 1
  const FileTypeDirectory: nat := 2

  /** The names "." and ".." as bytes. */
  function Dot(): seq<byte> { [46] }
  function DotDot(): seq<byte> { [46, 46] }

  datatype Entry = Entry(inode: nat, recLen: nat, fileType: nat, name: seq<byte>)

  /** A record that can stand in a block: a live inode, a header plus its name inside rec_len, every field in its width. */
  predicate WellFormed(e: Entry)
  {
    1 <= e.inode < 0x1_0000_0000 && EntryHeaderSize + |e.name| <= e.recLen < 0x1_0000
    && |e.name| < 256 && e.fileType < 256
  }

  predicate AllWellFormed(es: seq<Entry>)
  {
    forall i :: 0 <= i < |es| ==> WellFormed(es[i])
  }

  /** The sum of the record lengths: the bytes of the block the records cover. */
  function Sum(es: seq<Entry>): nat
  {
    if es == [] then 0 else es[0].recLen + Sum(es[1..])
  }

  lemma {:induction false} SumAppend(a: seq<Entry>, b: seq<Entry>)
    ensures Sum(a + b) == Sum(a) + Sum(b)
  {
    if a != [] {
      assert (a + b)[1..] == a[1..] + b;
      SumAppend(a[1..], b);
    } else {
      assert a + b == b;
    }
  }

  /** The records read from offset `off` of a block up to its end or to a record whose inode is 0. */
  function ParseFrom(b: seq<byte>, off: nat): (r: Result<seq<Entry>>)
    requires off <= |b|
    ensures r.Err? ==> r.error == CorruptDirectory
    decreases |b| - off
  {
    if off == |b| then Ok([])
    else if off + EntryHeaderSize > |b| then Err(CorruptDirectory)
    else
      var ino := U32(b, off);
      if ino == 0 then Ok([])
      else
        var rl := U16(b, off + 4);
        var nl := b[off + 6] as nat;
        if rl < EntryHeaderSize || off + rl > |b| || EntryHeaderSize + nl > rl then Err(CorruptDirectory)
        else
          match ParseFrom(b, off + rl)
          case Err(e) => Err(e)
          case Ok(rest) => Ok([Entry(ino, rl, b[off + 7] as nat, b[off + 8..off + 8 + nl])] + rest)
  }

  /** What the reader returns are well-formed records. */
  lemma {:induction false} ParseFromWellFormed(b: seq<byte>, off: nat)
    requires off <= |b|
    ensures ParseFrom(b, off).Ok? ==> AllWellFormed(ParseFrom(b, off).value)
    decreases |b| - off
  {
    if off == |b| {
      assert ParseFrom(b, off) == Ok([]);
    } else if off + EntryHeaderSize > |b| {
      assert ParseFrom(b, off).Err?;
    } else if U32(b, off) == 0 {
      assert ParseFrom(b, off) == Ok([]);
    } else {
      var rl := U16(b, off + 4);
      var nl := b[off + 6] as nat;
      if rl < EntryHeaderSize || off + rl > |b| || EntryHeaderSize + nl > rl {
        assert ParseFrom(b, off).Err?;
      } else {
        ParseFromWellFormed(b, off + rl);
        var r := ParseFrom(b, off + rl);
        if r.Ok? {
          var e := Entry(U32(b, off), rl, b[off + 7] as nat, b[off + 8..off + 8 + nl]);
          assert ParseFrom(b, off) == Ok([e] + r.value);
          Prepended(e, r.value);
        } else {
          assert ParseFrom(b, off).Err?;
        }
      }
    }
  }

  /** Offset `end` of a block is where a record list may stop: the block's end or a record whose inode is 0. */
  predicate EndsAt(b: seq<byte>, end: nat)
  {
    end == |b| || (end + EntryHeaderSize <= |b| && U32(b, end) == 0)
  }

  /** The records the reader returns stay inside the block and end at its end or at a record whose inode is 0. */
  lemma {:induction false} ParseFromEnds(b: seq<byte>, off: nat)
    requires off <= |b|
    ensures ParseFrom(b, off).Ok? ==> EndsAt(b, off + Sum(ParseFrom(b, off).value))
    decreases |b| - off
  {
    if off == |b| {
      assert ParseFrom(b, off) == Ok([]);
    } else if off + EntryHeaderSize > |b| {
      assert ParseFrom(b, off).Err?;
    } else if U32(b, off) == 0 {
      assert ParseFrom(b, off) == Ok([]);
    } else {
      var rl := U16(b, off + 4);
      var nl := b[off + 6] as nat;
      if rl < EntryHeaderSize || off + rl > |b| || EntryHeaderSize + nl > rl {
        assert ParseFrom(b, off).Err?;
      } else {
        ParseFromEnds(b, off + rl);
        var r := ParseFrom(b, off + rl);
        if r.Ok? {
          var e := Entry(U32(b, off), rl, b[off + 7] as nat, b[off + 8..off + 8 + nl]);
          assert ParseFrom(b, off) == Ok([e] + r.value);
          assert ([e] + r.value)[1..] == r.value;
          assert off + Sum([e] + r.value) == off + rl + Sum(r.value);
        } else {
          assert ParseFrom(b, off).Err?;
        }
      }
    }
  }

  /** A well-formed record put in front of well-formed records: the list stays well formed. */
  lemma Prepended(e: Entry, rest: seq<Entry>)
    requires WellFormed(e) && AllWellFormed(rest)
    ensures AllWellFormed([e] + rest)
  {
    assert forall i :: 1 <= i < |[e] + rest| ==> ([e] + rest)[i] == rest[i - 1];
  }

  function Parse(b: seq<byte>): Result<seq<Entry>>
  {
    ParseFrom(b, 0)
  }

  function Zeros(n: nat): (r: seq<byte>)
    ensures |r| == n && forall i :: 0 <= i < n ==> r[i] == 0
  {
    seq(n, _ => 0)
  }

  /** One record laid out in rec_len bytes: header, name, then zero padding. */
  function EncodeEntry(e: Entry): (r: seq<byte>)
    requires WellFormed(e)
    ensures |r| == e.recLen
  {
    EncodeHeader(e) + e.name + Zeros(e.recLen - EntryHeaderSize - |e.name|)
  }

  function EncodeHeader(e: Entry): (r: seq<byte>)
    requires WellFormed(e)
    ensures |r| == EntryHeaderSize
  {
    Le32(e.inode) + Le16(e.recLen) + [|e.name| as byte, e.fileType as byte]
  }

  function Encode(es: seq<Entry>): (r: seq<byte>)
    requires AllWellFormed(es)
    ensures |r| == Sum(es)
  {
    if es == [] then [] else EncodeEntry(es[0]) + Encode(es[1..])
  }

  lemma {:induction false} EncodedHeaderFields(e: Entry)
    requires WellFormed(e)
    ensures U32(EncodeEntry(e), 0) == e.inode && U16(EncodeEntry(e), 4) == e.recLen
    ensures EncodeEntry(e)[6] as nat == |e.name| && EncodeEntry(e)[7] as nat == e.fileType
    ensures EncodeEntry(e)[8..8 + |e.name|] == e.name
  {
    var r := EncodeEntry(e);
    var h := EncodeHeader(e);
    assert r[..8] == h;
    assert r[0..4] == h[0..4] == Le32(e.inode);
    assert r[4..6] == h[4..6] == Le16(e.recLen);
    assert r[6] == h[6] && r[7] == h[7];
    U32Le32(r, 0, e.inode);
    U16Le16(r, 4, e.recLen);
  }

  lemma {:induction false} EncodeEntryFields(b: seq<byte>, off: nat, e: Entry)
    requires WellFormed(e) && off + e.recLen <= |b| && b[off..off + e.recLen] == EncodeEntry(e)
    ensures U32(b, off) == e.inode && U16(b, off + 4) == e.recLen
    ensures b[off + 6] as nat == |e.name| && b[off + 7] as nat == e.fileType
    ensures b[off + 8..off + 8 + |e.name|] == e.name
  {
    var r := EncodeEntry(e);
    EncodedHeaderFields(e);
    U32Shift(b, off, r, 0);
    U16Shift(b, off, r, 4);
    assert b[off + 6] == r[6] && b[off + 7] == r[7];
    SliceOfSlice(b, off, e.recLen, 8, 8 + |e.name|);
  }

  /** A record whose header and name are laid out at `off`, followed by records that parse, parses as that record then those. */
  lemma {:induction false} ParseOne(b: seq<byte>, off: nat, e: Entry, rest: seq<Entry>)
    requires WellFormed(e) && off + e.recLen <= |b| && U32(b, off) == e.inode && U16(b, off + 4) == e.recLen
    requires b[off + 6] as nat == |e.name| && b[off + 7] as nat == e.fileType
    requires b[off + 8..off + 8 + |e.name|] == e.name
    requires ParseFrom(b, off + e.recLen) == Ok(rest)
    ensures ParseFrom(b, off) == Ok([e] + rest)
  {
    var nl := b[off + 6] as nat;
    assert off != |b| && off + EntryHeaderSize <= |b| && U32(b, off) != 0;
    assert Entry(U32(b, off), U16(b, off + 4), b[off + 7] as nat, b[off + 8..off + 8 + nl]) == e;
  }

  lemma {:induction false} ParseEncoded(b: seq<byte>, off: nat, e: Entry, next: nat, rest: seq<Entry>)
    requires WellFormed(e) && next == off + e.recLen <= |b| && b[off..next] == EncodeEntry(e)
    requires ParseFrom(b, next) == Ok(rest)
    ensures ParseFrom(b, off) == Ok([e] + rest)
  {
    EncodeEntryFields(b, off, e);
    ParseOne(b, off, e, rest);
  }

  lemma {:induction false} EncodeSplit(b: seq<byte>, off: nat, es: seq<Entry>)
    requires es != [] && AllWellFormed(es) && off + Sum(es) == |b| && b[off..] == Encode(es)
    ensures WellFormed(es[0]) && off + es[0].recLen <= |b|
    ensures b[off..off + es[0].recLen] == EncodeEntry(es[0])
    ensures b[off + es[0].recLen..] == Encode(es[1..])
  {
    var enc := Encode(es);
    assert enc == EncodeEntry(es[0]) + Encode(es[1..]);
    assert b[off..off + es[0].recLen] == enc[..es[0].recLen];
    assert b[off + es[0].recLen..] == enc[es[0].recLen..];
  }

  lemma {:induction false} TailWellFormed(es: seq<Entry>)
    requires es != [] && AllWellFormed(es)
    ensures AllWellFormed(es[1..])
  {
    forall i | 0 <= i < |es[1..]| ensures WellFormed(es[1..][i]) {
      assert es[1..][i] == es[i + 1];
    }
  }

  lemma {:induction false} ParseEncodeFrom(b: seq<byte>, off: nat, es: seq<Entry>)
    requires AllWellFormed(es) && off + Sum(es) == |b| && b[off..] == Encode(es)
    ensures ParseFrom(b, off) == Ok(es)
    decreases |es|
  {
    if es != [] {
      var e := es[0];
      EncodeSplit(b, off, es);
      TailWellFormed(es);
      var next: nat, rest := off + e.recLen, es[1..];
      ParseEncodeFrom(b, next, rest);
      ParseEncoded(b, off, e, next, rest);
      assert [e] + rest == es;
    }
  }

  /** A well-formed record list that tiles the block is read back unchanged from its encoding. */
  lemma ParseEncode(es: seq<Entry>)
    requires AllWellFormed(es) && Sum(es) == BlockSize
    ensures Parse(Encode(es)) == Ok(es)
  {
    var b := Encode(es);
    assert b[0..] == b;
    ParseEncodeFrom(b, 0, es);
  }

  /** The first record named `name`, as read_dir reports it. */
  function LookupFrom(es: seq<Entry>, name: seq<byte>, k: nat): (r: Option<nat>)
    requires k <= |es|
    ensures r.Some? ==> k <= r.value < |es| && es[r.value].name == name
                        && forall j :: k <= j < r.value ==> es[j].name != name
    ensures r.None? ==> forall j :: k <= j < |es| ==> es[j].name != name
    decreases |es| - k
  {
    if k == |es| then None
    else if es[k].name == name then Some(k)
    else LookupFrom(es, name, k + 1)
  }

  function Lookup(es: seq<Entry>, name: seq<byte>): Option<nat>
  {
    LookupFrom(es, name, 0)
  }

  /** How the source's directory walk ends. */
  datatype WalkEnd =
    | Hit(entry: Entry)      // the loop found the name at a record
    | Exhausted              // the loop condition failed: size reached i_size, or an inode-0 record
    | OverranBlock           // the cursor stepped to offset 1024 and read a header outside the block

  /**
   * The walk of read_dir, getLastEntry, isLoaded, removeEntry and constroiCaminho,
   * resumed at record `k` with the accumulated `size`: after leaving a record it
   * adds the rec_len of the record it arrives at. `full` says the records tile the block.
   */
  function WalkFrom(es: seq<Entry>, full: bool, iSize: nat, name: seq<byte>, k: nat, size: nat): WalkEnd
    requires k < |es|
    decreases |es| - k
  {
    if size >= iSize then Exhausted
    else if es[k].name == name then Hit(es[k])
    else if k + 1 == |es| then (if full then OverranBlock else Exhausted)
    else WalkFrom(es, full, iSize, name, k + 1, size + es[k + 1].recLen)
  }

  function WalkAsWritten(es: seq<Entry>, iSize: nat, name: seq<byte>): WalkEnd
  {
    if es == [] then Exhausted else WalkFrom(es, Sum(es) == BlockSize, iSize, name, 0, 0)
  }

  lemma {:induction false} SumSplit(es: seq<Entry>, k: nat)
    requires k < |es|
    ensures Sum(es[..k + 1]) == Sum(es[..k]) + es[k].recLen
    ensures Sum(es) == Sum(es[..k]) + Sum(es[k..])
  {
    assert es[..k + 1] == es[..k] + [es[k]];
    SumAppend(es[..k], [es[k]]);
    assert Sum([es[k]]) == es[k].recLen + Sum([]);
    assert es == es[..k] + es[k..];
    SumAppend(es[..k], es[k..]);
  }

  /** Resumed at record `k` with the sum the walk carries there, the walk finds the first later match, and otherwise ends by the block's shape. */
  lemma {:induction false} WalkFromFindsFirst(es: seq<Entry>, iSize: nat, name: seq<byte>, k: nat, size: nat)
    requires k < |es| && es[0].recLen >= 1 && Sum(es) <= BlockSize <= iSize
    requires size + es[0].recLen == Sum(es[..k + 1])
    ensures WalkFrom(es, Sum(es) == BlockSize, iSize, name, k, size)
         == match LookupFrom(es, name, k)
            case Some(j) => Hit(es[j])
            case None => if Sum(es) == BlockSize then OverranBlock else Exhausted
    decreases |es| - k
  {
    SumSplit(es, k);
    assert Sum(es[..k + 1]) <= Sum(es) by {
      if k + 1 < |es| {
        SumSplit(es, k + 1);
      } else {
        assert es[..k + 1] == es;
      }
    }
    if es[k].name != name && k + 1 < |es| {
      SumSplit(es, k + 1);
      WalkFromFindsFirst(es, iSize, name, k + 1, size + es[k + 1].recLen);
    }
  }

  /** With i_size at least a block, the walk finds exactly the record Lookup names. */
  lemma WalkFindsLookup(es: seq<Entry>, iSize: nat, name: seq<byte>)
    requires es != [] && es[0].recLen >= 1 && Sum(es) <= BlockSize <= iSize
    requires Lookup(es, name).Some?
    ensures WalkAsWritten(es, iSize, name) == Hit(es[Lookup(es, name).value])
  {
    assert es[..1] == [es[0]];
    assert Sum([es[0]]) == es[0].recLen + Sum([]);
    WalkFromFindsFirst(es, iSize, name, 0, 0);
  }

  /** On a block the records tile, looking up an absent name walks the cursor past the block's last byte. */
  lemma WalkMissOverrunsBlock(es: seq<Entry>, iSize: nat, name: seq<byte>)
    requires es != [] && es[0].recLen >= 1 && Sum(es) == BlockSize <= iSize
    requires Lookup(es, name).None?
    ensures WalkAsWritten(es, iSize, name) == OverranBlock
  {
    assert es[..1] == [es[0]];
    assert Sum([es[0]]) == es[0].recLen + Sum([]);
    WalkFromFindsFirst(es, iSize, name, 0, 0);
  }

  /** The rec_len field of the header at byte `p` of the block, 0 outside it. */
  function RecLenAt(b: seq<byte>, p: nat): nat
  {
    ByteAt(b, p + 4) as nat + 256 * (ByteAt(b, p + 5) as nat)
  }

  /** `n` steps of the source cursor from (`off`, `size`): move by the rec_len at the cursor, then add the rec_len found there. */
  function CursorSteps(b: seq<byte>, off: nat, size: nat, n: nat): (nat, nat)
    decreases n
  {
    if n == 0 then (off, size)
    else
      var next := off + RecLenAt(b, off);
      CursorSteps(b, next, size + RecLenAt(b, next), n - 1)
  }

  /** A record whose rec_len is 0 pins the cursor: no number of steps moves it or grows the size, so the loop never ends. */
  lemma {:induction false} ZeroRecLenPinsCursor(b: seq<byte>, off: nat, size: nat, n: nat)
    requires RecLenAt(b, off) == 0
    ensures CursorSteps(b, off, size, n) == (off, size)
  {
    if n > 0 {
      ZeroRecLenPinsCursor(b, off, size, n - 1);
    }
  }
}
