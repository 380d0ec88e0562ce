// Writing into a caller's buffer of limited room.

module Output {
  import opened Bytes

  // As much of `w` as fits into `room` places.
  function Clip<T>(w: seq<T>, room: nat): (r: seq<T>)
    ensures |r| == Min(|w|, room)
  {
    if |w| <= room then w else w[..room]
  }

  // A buffer of `limit` places that took as much of `w` as fits, and goes on taking.
  ghost predicate Took<T>(done: seq<T>, w: seq<T>, limit: nat) {
    done == Clip(w, limit)
  }

  lemma TakeMore<T>(done: seq<T>, w: seq<T>, limit: nat, more: seq<T>, done': seq<T>)
    requires Took(done, w, limit) && done' == done + Clip(more, limit - |done|)
    ensures Took(done', w + more, limit)
  {
  }

  // The output pointer and the room left, which a writer advances together. `done`
  // is what lies below the pointer.
  class Cursor {
    const buf: array<byte>
    const limit: nat
    var left: nat
    ghost var done: seq<byte>
    ghost const beyond: seq<byte>  // what lies past the limit, never touched

    ghost predicate Valid()
      reads this, buf
    {
      && |done| + left == limit <= buf.Length
      && buf[..|done|] == done
      && buf[limit..] == beyond
    }

    constructor (out: array<byte>, outlen: nat)
      requires outlen <= out.Length
      ensures Valid() && buf == out && limit == left == outlen && done == [] && beyond == out[outlen..]
    {
      buf, limit, left, done, beyond := out, outlen, outlen, [], out[outlen..];
    }

    // The buffer took as much of `b` as fits.
    ghost predicate Holds(b: seq<byte>)
      reads this, buf
    {
      Valid() && Took(done, b, limit)
    }

    // It did so when the room left was `save`; more has been written since.
    ghost predicate HeldAt(save: nat, b: seq<byte>)
      reads this, buf
    {
      Valid() && left <= save <= limit && Took(done[..limit - save], b, limit)
    }

    // One byte at the write position.
    method Put(c: byte)
      requires Valid() && left != 0
      modifies this, buf
      ensures Valid() && done == old(done) + [c] && left == old(left) - 1
    {
      buf[limit - left] := c;
      left, done := left - 1, done + [c];
    }

    // Many bytes there.
    method PutAll(src: seq<byte>)
      requires Valid() && |src| <= left
      modifies this, buf
      ensures Valid() && done == old(done) + src && left == old(left) - |src|
    {
      forall i | 0 <= i < |src| {
        buf[limit - left + i] := src[i];
      }
      left, done := left - |src|, done + src;
    }

    // The same, on top of `b`.
    method PutAfter(c: byte, ghost b: seq<byte>)
      requires Holds(b) && left != 0
      modifies this, buf
      ensures Holds(b + [c]) && left == old(left) - 1
    {
      Put(c);
    }

    // A full buffer took as much as fits of anything longer, too.
    lemma Full(b: seq<byte>, b': seq<byte>)
      requires Holds(b) && left == 0 && b <= b'
      ensures Holds(b')
    {
    }

    lemma Unmoved(save: nat, b: seq<byte>)
      requires HeldAt(save, b) && left == save
      ensures Holds(b)
    {
      assert done[..limit - save] == done;
    }

    // Back to where the room left was `save`.
    method Restore(save: nat, ghost b: seq<byte>)
      requires HeldAt(save, b)
      modifies this
      ensures Holds(b) && left == save
    {
      left, done := save, done[..limit - save];
    }
  }
}
