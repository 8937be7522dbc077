/**
 The buffered reader under the scanner: a 255-byte buffer filled by `read`,
 with an in-place offset. The file descriptor is modelled by the sequence of
 blocks that its successive `read` calls return; after the last one, `read`
 returns nothing.
 */
module LcfgReaders {

  const BUFFER_SIZE: nat := 255

  type Blocks = blocks: seq<string> | forall b | b in blocks :: |b| <= BUFFER_SIZE

  /** What the reader lets through: it takes a block that does not fill the buffer for the last one. */
  function Visible(blocks: seq<string>): string {
    if blocks == [] then ""
    else if |blocks[0]| < BUFFER_SIZE then blocks[0]
    else blocks[0] + Visible(blocks[1..])
  }

  /** Everything the descriptor delivers. */
  function Contents(blocks: seq<string>): string {
    if blocks == [] then "" else blocks[0] + Contents(blocks[1..])
  }

  /** A `read` that comes back short although more bytes follow. */
  ghost predicate ShortReadBeforeEnd(blocks: seq<string>) {
    exists i | 0 <= i < |blocks| :: |blocks[i]| < BUFFER_SIZE && Contents(blocks[i + 1..]) != ""
  }

  /** The blocks in which a regular file is delivered: full ones, then the remainder. */
  function FileBlocks(file: string): (blocks: Blocks)
    decreases |file|
  {
    if file == "" then []
    else if |file| <= BUFFER_SIZE then [file]
    else [file[..BUFFER_SIZE]] + FileBlocks(file[BUFFER_SIZE..])
  }

  /** The whole input is seen exactly when no `read` is short before the end. */
  lemma {:induction false} VisibleIsContents(blocks: seq<string>)
    ensures Visible(blocks) == Contents(blocks) <==> !ShortReadBeforeEnd(blocks)
  {
    if blocks != [] {
      var rest := blocks[1..];
      VisibleIsContents(rest);
      forall i | 0 <= i < |rest|
        ensures blocks[i + 1] == rest[i] && blocks[i + 2..] == rest[i + 1..]
      {
      }
      if |blocks[0]| < BUFFER_SIZE {
        assert Visible(blocks) == blocks[0];
        if Contents(rest) != "" {
          assert |blocks[0]| < BUFFER_SIZE && Contents(blocks[0 + 1..]) != "";
          assert |Contents(blocks)| > |blocks[0]|;
        } else {
          EmptyTails(rest);
        }
      } else if ShortReadBeforeEnd(blocks) {
        var i :| 0 <= i < |blocks| && |blocks[i]| < BUFFER_SIZE && Contents(blocks[i + 1..]) != "";
        assert |rest[i - 1]| < BUFFER_SIZE && Contents(rest[i - 1 + 1..]) != "";
        assert Contents(blocks)[|blocks[0]|..] == Contents(rest);
        assert Visible(blocks)[|blocks[0]|..] == Visible(rest);
      }
    }
  }

  lemma {:induction false} ContentsConcat(a: seq<string>, b: seq<string>)
    ensures Contents(a + b) == Contents(a) + Contents(b)
    ensures |b| == 1 ==> Contents(b) == b[0]
  {
    if |b| == 1 {
      assert b[1..] == [] && b[0] + "" == b[0];
    }
    if a == [] {
      assert a + b == b;
    } else {
      assert (a + b)[1..] == a[1..] + b;
      ContentsConcat(a[1..], b);
    }
  }

  /** The first block of fewer than 255 bytes is let through, and nothing behind it. */
  lemma {:induction false} VisibleUpToShortBlock(full: seq<string>, short: string, more: seq<string>)
    requires (forall b | b in full :: |b| == 255) && |short| < 255
    ensures Visible(full + [short] + more) == Contents(full) + short
  {
    var all := full + [short] + more;
    if full != [] {
      assert full[0] in full;
      assert all[1..] == full[1..] + [short] + more;
      VisibleUpToShortBlock(full[1..], short, more);
    }
  }

  /** A regular file is delivered in blocks of 255 bytes and one rest. */
  lemma {:induction false} FileBlocksAreFull(file: string)
    ensures Contents(FileBlocks(file)) == file
    ensures forall i | 0 <= i < |FileBlocks(file)| - 1 :: |FileBlocks(file)[i]| == 255
    decreases |file|
  {
    if |file| > BUFFER_SIZE {
      FileBlocksAreFull(file[BUFFER_SIZE..]);
      assert FileBlocks(file)[1..] == FileBlocks(file[BUFFER_SIZE..]);
    } else if file != "" {
      assert [file][1..] == [] && file + "" == file;
    }
  }

  lemma {:induction false} EmptyTails(blocks: seq<string>)
    requires Contents(blocks) == ""
    ensures forall i | 0 <= i <= |blocks| :: Contents(blocks[i..]) == ""
  {
    if blocks != [] {
      EmptyTails(blocks[1..]);
      forall i | 0 <= i <= |blocks|
        ensures Contents(blocks[i..]) == ""
      {
        if i > 0 {
          assert blocks[i..] == blocks[1..][i - 1..];
        }
      }
    }
  }

  /** A regular file of any length, multiples of the buffer size included, is seen whole. */
  lemma {:induction false} RegularFileIsSeenWhole(file: string)
    ensures Visible(FileBlocks(file)) == file
    decreases |file|
  {
    if |file| > BUFFER_SIZE {
      RegularFileIsSeenWhole(file[BUFFER_SIZE..]);
      assert FileBlocks(file)[1..] == FileBlocks(file[BUFFER_SIZE..]);
    } else if file != "" {
      assert [file][1..] == [];
      assert Visible([file]) == file + Visible([]) || Visible([file]) == file;
    }
  }

  class Reader {
    const blocks: Blocks
    var nextBlock: nat
    const buffer: array<char>
    var offset: nat
    var size: nat
    var eof: bool
    ghost const Repr: set<object>

    ghost predicate Valid()
      reads this, Repr
    {
      && Repr == {this, buffer}
      && buffer.Length == BUFFER_SIZE
      && nextBlock <= |blocks|
      && (!eof ==> offset <= size <= BUFFER_SIZE)
    }

    /** The bytes that are still to come; never a stale byte of the buffer. */
    ghost function Rest(): string
      requires Valid()
      reads this, Repr
    {
      if eof then ""
      else buffer[offset..size] + (if size == 0 || size == BUFFER_SIZE then Visible(blocks[nextBlock..]) else "")
    }

    constructor (blocks: Blocks)
      ensures Valid() && fresh(Repr)
      ensures Rest() == Visible(blocks)
    {
      this.blocks := blocks;
      nextBlock, offset, size, eof := 0, 0, 0, false;
      var b := new char[BUFFER_SIZE];
      buffer := b;
      Repr := {this, b};
      new;
      assert blocks[0..] == blocks;
    }

    /** One `read`: the buffer is overwritten from its start; an empty block means end of file. */
    method BufferFill()
      requires Valid() && !eof && offset == size && (size == 0 || size == BUFFER_SIZE)
      modifies Repr
      ensures Valid() && Rest() == old(Rest())
      ensures !eof ==> offset == 0 < size
    {
      ghost var before := blocks[nextBlock..];
      var block := "";
      if nextBlock < |blocks| {
        block := blocks[nextBlock];
        nextBlock := nextBlock + 1;
      }
      assert before != [] ==> before[0] == block && before[1..] == blocks[nextBlock..];
      forall i | 0 <= i < |block| {
        buffer[i] := block[i];
      }
      size := |block|;
      if size == 0 {
        eof := true;
      } else {
        offset := 0;
      }
      assert buffer[..|block|] == block;
    }

    method CharEof() returns (r: bool)
      requires Valid()
      modifies Repr
      ensures Valid() && Rest() == old(Rest())
      ensures r <==> Rest() == ""
      ensures r <==> eof
      ensures !r ==> offset < size
    {
      if eof {
        return true;
      }
      if size == 0 || offset == BUFFER_SIZE {
        BufferFill();
      }
      if size < BUFFER_SIZE && offset == size {
        eof := true;
      }
      r := eof;
    }

    /** `ok` is false when the caller peeks beyond the end. */
    method CharPeek() returns (ok: bool, c: char)
      requires Valid()
      modifies Repr
      ensures Valid() && Rest() == old(Rest())
      ensures ok <==> Rest() != ""
      ensures ok ==> c == Rest()[0]
    {
      c := 0 as char;
      var atEnd := CharEof();
      ok := !atEnd;
      if ok {
        c := buffer[offset];
      }
    }

    method CharRead() returns (ok: bool, c: char)
      requires Valid()
      modifies Repr
      ensures Valid()
      ensures ok <==> old(Rest()) != ""
      ensures ok ==> old(Rest()) == [c] + Rest()
      ensures !ok ==> Rest() == ""
    {
      c := 0 as char;
      var atEnd := CharEof();
      ok := !atEnd;
      if ok {
        c := buffer[offset];
        offset := offset + 1;
        assert buffer[offset - 1..size] == [c] + buffer[offset..size];
      }
    }
  }
}
