/** The cursor reader of the trace receiver, proved against the functions of `ProtoWire`. */
module ProtoReader {
  import opened Wrappers
  import opened ProtoWire

  /** 2 ** shift */
  function Pow2(shift: nat): (p: nat)
    ensures p >= 1
  {
    if shift == 0 then 1 else 2 * Pow2(shift - 1)
  }

  lemma {:induction false} Pow2Seven(shift: nat)
    ensures Pow2(shift + 7) == 128 * Pow2(shift)
  {
    assert Pow2(shift + 7) == 2 * Pow2(shift + 6) == 4 * Pow2(shift + 5) == 8 * Pow2(shift + 4);
    assert Pow2(shift + 4) == 2 * Pow2(shift + 3) == 4 * Pow2(shift + 2) == 8 * Pow2(shift + 1);
  }

  /** The bytes a reader of `buffer` at `offset` still has. */
  function Remaining(buffer: Bytes, offset: nat): (r: Bytes)
    ensures |r| <= |buffer|
  {
    if offset > |buffer| then [] else buffer[offset..]
  }

  class ProtoReader {
    const buffer: Bytes
    var offset: nat

    constructor (bytes: Bytes)
      ensures buffer == bytes && offset == 0
    {
      buffer := bytes;
      offset := 0;
    }

    predicate Done()
      reads this
    {
      offset >= |buffer|
    }

    method Varint() returns (r: Result<nat, Error>)
      modifies this
      ensures match VarintOf(Remaining(buffer, old(offset)))
              case Ok(v) => r == Ok(v.value) && offset == old(offset) + v.used
              case Err(e) => r == Err(e)
    {
      hide Pow2, Groups, Shifted, Remaining;
      var result: nat, shift: nat := 0, 0;
      ghost var whole := Remaining(buffer, offset);
      var start := offset;
      NothingShifted(whole);
      while offset < |buffer|
        invariant start <= offset && shift == 7 * (offset - start)
        invariant offset <= |buffer| || offset == start
        invariant Groups(whole) == Shifted(result, Pow2(shift), offset - start, Groups(Remaining(buffer, offset)))
        decreases |buffer| - offset
      {
        RemainingStep(buffer, offset);
        GroupStep(result, Pow2(shift), offset - start, Remaining(buffer, offset));
        var b := buffer[offset];
        offset := offset + 1;
        result := result + b % 128 * Pow2(shift);
        if b < 128 {
          assert Groups(whole) == Some(Read(result, offset - start));
          if result < SAFE_INTEGER && offset - start <= MAX_EXACT_GROUPS {
            return Ok(result);
          }
          return Err(InexactVarint);
        }
        Pow2Seven(shift);
        shift := shift + 7;
      }
      NoneShifted(result, Pow2(shift), offset - start, buffer, offset);
      return Err(TruncatedVarint);
    }

    method ReadTag() returns (r: Result<Tag, Error>)
      modifies this
      ensures match TagOf(Remaining(buffer, old(offset)))
              case Ok(t) => r == Ok(t.value) && offset == old(offset) + t.used
              case Err(e) => r == Err(e)
    {
      var raw :- Varint();
      return Ok(Tag(raw % WORD / 8, raw % 8));
    }

    method ReadBytes() returns (r: Result<Bytes, Error>)
      modifies this
      ensures match BytesOf(Remaining(buffer, old(offset)))
              case Ok(b) => r == Ok(b.value) && offset == old(offset) + b.used
              case Err(e) => r == Err(e)
    {
      ghost var whole := Remaining(buffer, offset);
      ghost var start := offset;
      var length :- Varint();
      var end := offset + length;
      if end > |buffer| {
        return Err(TruncatedBytes);
      }
      var value := buffer[offset..end];
      assert value == whole[offset - start..end - start];
      offset := end;
      return Ok(value);
    }

    method Fixed64() returns (r: Result<Bytes, Error>)
      modifies this
      ensures match Fixed64Of(Remaining(buffer, old(offset)))
              case Ok(b) => r == Ok(b.value) && offset == old(offset) + b.used
              case Err(e) => r == Err(e)
    {
      var end := offset + 8;
      if end > |buffer| {
        return Err(TruncatedFixed64);
      }
      var value := buffer[offset..end];
      assert value == Remaining(buffer, offset)[..8];
      offset := end;
      return Ok(value);
    }

    method Skip(wire: nat) returns (r: Result<(), Error>)
      modifies this
      ensures match SkipOf(Remaining(buffer, old(offset)), wire)
              case Ok(used) => r == Ok(()) && offset == old(offset) + used
              case Err(e) => r == Err(e)
    {
      if wire == 0 {
        var _ :- Varint();
      } else if wire == 1 {
        offset := offset + 8;
      } else if wire == 2 {
        var _ :- ReadBytes();
      } else if wire == 5 {
        offset := offset + 4;
      } else {
        return Err(UnsupportedWire(wire));
      }
      return Ok(());
    }
  }

  /** The varint seen so far (`low`, `used` bytes) completed by the groups that are left. */
  ghost function Shifted(low: nat, scale: nat, used: nat, rest: Option<Read<nat>>): Option<Read<nat>> {
    match rest
    case None => None
    case Some(high) => Some(Read(low + high.value * scale, used + high.used))
  }

  /** At the start nothing has been read. */
  lemma {:induction false} NothingShifted(s: Bytes)
    ensures Groups(s) == Shifted(0, Pow2(0), 0, Groups(s))
  {
    assert Pow2(0) == 1;
  }

  /** At the end nothing is left, and the number is incomplete. */
  lemma {:induction false} NoneShifted(low: nat, scale: nat, used: nat, buffer: Bytes, offset: nat)
    requires offset >= |buffer|
    ensures Shifted(low, scale, used, Groups(Remaining(buffer, offset))) == None
  {
    assert Remaining(buffer, offset) == [];
  }

  lemma {:induction false} RemainingStep(buffer: Bytes, offset: nat)
    requires offset < |buffer|
    ensures Remaining(buffer, offset) != [] && Remaining(buffer, offset)[0] == buffer[offset]
    ensures Remaining(buffer, offset)[1..] == Remaining(buffer, offset + 1)
  {
  }

  lemma {:induction false} GroupStep(low: nat, scale: nat, used: nat, s: Bytes)
    requires s != []
    ensures Shifted(low, scale, used, Groups(s))
         == if s[0] < 128 then Some(Read(low + s[0] % 128 * scale, used + 1))
            else Shifted(low + s[0] % 128 * scale, 128 * scale, used + 1, Groups(s[1..]))
  {
    if s[0] >= 128 && Groups(s[1..]).Some? {
      var digit := s[0] % 128;
      var high := Groups(s[1..]).value;
      assert digit == s[0] - 128;
      assert Groups(s) == Some(Read(digit + 128 * high.value, high.used + 1));
      Distribute(low, digit, high, scale, used);
    }
  }

  lemma {:induction false} Distribute(low: nat, digit: nat, high: Read<nat>, scale: nat, used: nat)
    ensures Shifted(low, scale, used, Some(Read(digit + 128 * high.value, high.used + 1)))
         == Shifted(low + digit * scale, 128 * scale, used + 1, Some(high))
  {
    assert (digit + 128 * high.value) * scale == digit * scale + high.value * (128 * scale);
  }
}
