/** The two objects that split and put back together, each proved to do what its function says. */
module FragmentObjects {
  import opened Options
  import opened Instructions
  import opened Fragments

  /** What an endpoint remembers of the instruction it cut up last. */
  class Fragmenter {
    var nextInstructionId: nat
    var lastInstruction: Option<Instruction>
    var lastMtu: Option<nat>

    ghost function State(): FragmenterState
      reads this
    {
      FragmenterState(nextInstructionId, lastInstruction, lastMtu)
    }

    constructor ()
      ensures State() == FRESH_FRAGMENTER
    {
      nextInstructionId, lastInstruction, lastMtu := 0, None, None;
    }

    method MakeFragments(codec: Codec, inst: Instruction, mtu: nat) returns (r: Result<seq<Fragment>>)
      modifies this
      ensures State() == AfterFragmenting(old(State()), inst, PieceSize(mtu))
      ensures r == Fragments.MakeFragments(old(State()), codec, inst, mtu)
    {
      var size := if mtu <= HEADER_LEN then 1 else mtu - HEADER_LEN;
      var changed := !(lastInstruction.Some? && SameHeader(inst, lastInstruction.value) && lastMtu == Some(size));
      if changed {
        nextInstructionId := nextInstructionId + 1;
      }
      lastInstruction, lastMtu := Some(inst), Some(size);

      r := CutUp(nextInstructionId, codec.encode(inst), size);
    }

    /** Cut a payload into pieces until it is used up or a number would run into the final bit. */
    method CutUp(id: nat, payload: seq<Byte>, size: nat) returns (r: Result<seq<Fragment>>)
      requires size >= 1
      ensures var ps := Pieces(id, payload, size, 0); r == if |ps| <= FINAL_BIT then Ok(ps) else Err(TooManyFragments)
    {
      hide Pieces;
      var pieces: seq<Fragment> := [];
      var num: nat := 0;
      var rest := payload;
      while true
        invariant num == |pieces| <= FINAL_BIT
        invariant pieces + Pieces(id, rest, size, num) == Pieces(id, payload, size, 0)
        decreases |rest|
      {
        var take := if |rest| < size then |rest| else size;
        var last := take == |rest|;
        PiecesStep(id, rest, size, num);
        if num / FINAL_BIT % 2 != 0 {
          assert |Pieces(id, payload, size, 0)| > FINAL_BIT;
          return Err(TooManyFragments);
        }
        ghost var before := pieces;
        pieces := pieces + [Fragment(id, num, last, rest[..take])];
        if last {
          assert rest[..take] == rest;
          assert pieces == Pieces(id, payload, size, 0);
          break;
        }
        assert before + ([pieces[num]] + Pieces(id, rest[take..], size, num + 1))
            == pieces + Pieces(id, rest[take..], size, num + 1);
        rest := rest[take..];
        num := num + 1;
      }
      return Ok(pieces);
    }
  }

  lemma PiecesStep(id: nat, rest: seq<Byte>, size: nat, num: nat)
    requires size >= 1
    ensures Pieces(id, rest, size, num) ==
            if |rest| <= size then [Fragment(id, num, true, rest)]
            else [Fragment(id, num, false, rest[..size])] + Pieces(id, rest[size..], size, num + 1)
  {
  }

  /** The pieces held of the instruction now arriving. */
  class FragmentAssembly {
    var fragments: map<nat, Fragment>
    var bytesHeld: int
    var total: Option<nat>
    var currentId: Option<nat>

    ghost function State(): AssemblyState
      reads this
    {
      AssemblyState(fragments, bytesHeld, total, currentId)
    }

    constructor ()
      ensures State() == FRESH_ASSEMBLY
    {
      fragments, bytesHeld, total, currentId := map[], 0, None, None;
    }

    method Restart(id: nat)
      modifies this
      ensures State() == Fragments.Restart(id)
    {
      fragments, bytesHeld, total, currentId := map[], 0, None, Some(id);
    }

    /** Forget what is numbered past the last fragment, counting its bytes out. */
    method Retain(count: nat)
      modifies this
      ensures State() == Truncate(old(State()), count)
    {
      ghost var before := fragments;
      total := Some(count);
      if count < FINAL_BIT {
        var num := count;
        while num < FINAL_BIT
          invariant count <= num <= FINAL_BIT
          invariant bytesHeld == old(bytesHeld) - Held(before, count, num)
          invariant fragments == before && total == Some(count) && currentId == old(currentId)
        {
          if num in fragments {
            bytesHeld := bytesHeld - |fragments[num].contents|;
          }
          num := num + 1;
        }
      }
      fragments := map n | n in fragments && n < count :: fragments[n];
    }

    method AddFragment(frag: Fragment) returns (complete: bool)
      modifies this
      ensures (State(), complete) == Fragments.AddFragment(old(State()), frag)
    {
      if currentId != Some(frag.id) {
        Restart(frag.id);
      }
      if frag.isFinal {
        Retain(frag.num + 1);
      }
      if bytesHeld + |frag.contents| > MAX_ASSEMBLY_BYTES {
        Restart(frag.id);
        return false;
      }
      if frag.num !in fragments {
        bytesHeld := bytesHeld + |frag.contents|;
        fragments := fragments[frag.num := frag];
      }
      return total == Some(|fragments|);
    }

    method GetAssembly(codec: Codec) returns (r: Result<Instruction>)
      modifies this
      ensures (State(), r) == Fragments.GetAssembly(old(State()), codec)
    {
      if total != Some(|fragments|) {
        return Err(Malformed);
      }
      var encoded := [];
      var num := 0;
      while num < FINAL_BIT
        invariant 0 <= num <= FINAL_BIT
        invariant encoded == Joined(fragments, num)
      {
        if num in fragments {
          encoded := encoded + fragments[num].contents;
        }
        num := num + 1;
      }
      var decoded := codec.decode(encoded);
      if decoded == None {
        return Err(Malformed);
      }
      fragments, bytesHeld, total := map[], 0, None;
      return Ok(decoded.value);
    }
  }
}
