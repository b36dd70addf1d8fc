/** The encoder and the decoder of net/slip/slip.h on their buffers. */
module SlipCodec {
  import opened Bytes
  import opened Options
  import opened Slip

  class SLIPEncoder {
    /** The memory that m_buff points at: the `size` bytes of the buffer, and whatever lies behind them. */
    const data: array<Byte>
    const size: nat
    var len: nat

    constructor (size: nat, behind: nat)
      ensures this.size == size && data.Length == size + behind && fresh(data) && len == size
    {
      data := new Byte[size + behind](_ => 0);
      this.size, len := size, size;
    }

    /** UnallocatedSLIPEncoder::encode: false stands for NULL. It writes up to WriteEnd, and no byte behind that. */
    method Encode(p: seq<Byte>) returns (ok: bool)
      requires size <= data.Length < SIZE_WRAP && WriteEnd(size, p) <= data.Length
      modifies this`len, data
      ensures ok <==> Returns(size, p)
      ensures ok ==> len == |Slip.Encode(p)| <= data.Length && data[..len] == Slip.Encode(p)
      ensures data[WriteEnd(size, p)..] == old(data[WriteEnd(size, p)..])
    {
      hide Body, LoopEnd;
      BodyStart();
      assert p[..0] == [];
      LoopEndBounds(size, p, 1, 0);
      ghost var end := WriteEnd(size, p);
      var bound := (size + SIZE_WRAP - 1) % SIZE_WRAP;
      assert bound == Bound(size);
      var i, j := 0, 0;
      data[i] := END;
      i := i + 1;
      while j < |p| && i < bound
        invariant j <= |p| && i == 1 + |Body(p[..j])| <= end && LoopEnd(size, p, 1, 0) == LoopEnd(size, p, i, j)
        invariant data[..i] == [END] + Body(p[..j]) && (i > 1 ==> data[i - 1] != ESC)
        invariant forall n :: end <= n < data.Length ==> data[n] == old(data[n])
      {
        BodyStep(p, j);
        LoopEndStep(size, p, i, j);
        LoopEndBounds(size, p, i + |EncodeByte(p[j])|, j + 1);
        i := EncodeOne(p[j], i, end);
        j := j + 1;
      }
      LoopEndStep(size, p, i, j);
      if j < |p| {
        return false;
      }
      assert p[..j] == p;
      if i > 1 && i == bound {
        if data[i - 1] == ESC {
          assert false;
        }
      }
      data[i] := END;
      i := i + 1;
      len := i;
      ok := true;
    }

    /** The switch in the loop of encode(). */
    method EncodeOne(b: Byte, i: nat, ghost end: nat) returns (i': nat)
      requires i + |EncodeByte(b)| <= end <= data.Length
      modifies data
      ensures i' == i + |EncodeByte(b)| && data[..i'] == old(data[..i]) + EncodeByte(b) && data[i' - 1] != ESC
      ensures forall n :: end <= n < data.Length ==> data[n] == old(data[n])
    {
      if b == END {
        data[i] := ESC;
        data[i + 1] := ESC_END;
        i' := i + 2;
      } else if b == ESC {
        data[i] := ESC;
        data[i + 1] := ESC_ESC;
        i' := i + 2;
      } else {
        data[i] := b;
        i' := i + 1;
      }
    }
  }

  class SLIPDecoder {
    const data: array<Byte>
    var len: nat
    var parsing: bool
    var escape: bool

    ghost predicate Valid()
      reads this
    {
      len <= data.Length
    }

    ghost function View(): Decoder
      requires Valid()
      reads this, data
    {
      Decoder(data[..len], parsing, escape)
    }

    constructor (size: nat)
      ensures Valid() && View() == INITIAL && data.Length == size && fresh(data)
    {
      data := new Byte[size](_ => 0);
      len, parsing, escape := 0, false, false;
    }

    /** UnallocatedSLIPDecoder::push with both repairs. */
    method Push(b: Byte) returns (out: Option<seq<Byte>>)
      requires Valid()
      modifies this, data
      ensures Valid() && (View(), out) == Slip.Push(true, data.Length, old(View()), b)
    {
      if !parsing {
        if b == END {
          escape := false;
          parsing := true;
          len := 0;
          return None;
        }
      }
      var push := b;
      if b == END {
        parsing := false;
        return Some(data[..len]);
      } else if b == ESC {
        escape := true;
        return None;
      } else if b == ESC_END {
        if escape {
          push := END;
        }
        // the break that is missing from the source
      } else if b == ESC_ESC {
        if escape {
          push := ESC;
        }
      }
      escape := false;
      if len == data.Length {
        parsing := false;
        return None;
      }
      data[len] := push;  // the source stores the byte as it came
      len := len + 1;
      assert data[..len] == old(data[..len]) + [push];
      return None;
    }

    /** The same as written: the case for ESC_END falls into the one for ESC_ESC, and `push` is not stored. */
    method PushAsWritten(b: Byte) returns (out: Option<seq<Byte>>)
      requires Valid()
      modifies this, data
      ensures Valid() && (View(), out) == Slip.Push(false, data.Length, old(View()), b)
    {
      if !parsing {
        if b == END {
          escape := false;
          parsing := true;
          len := 0;
          return None;
        }
      }
      var push := b;
      if b == END {
        parsing := false;
        return Some(data[..len]);
      } else if b == ESC {
        escape := true;
        return None;
      } else if b == ESC_END || b == ESC_ESC {
        if b == ESC_END && escape {
          push := END;
        }
        if escape {
          push := ESC;
        }
      }
      escape := false;
      if len == data.Length {
        parsing := false;
        return None;
      }
      data[len] := b;
      len := len + 1;
      assert data[..len] == old(data[..len]) + [b];
      return None;
    }
  }
}
