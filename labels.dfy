/**
 * The label protocol. A label is one signed word: 0 when nothing refers to
 * it, site + 8 when it is linked (the newest pending 32-bit field sits at
 * offset `site` of the code), and -target - 8 once it is bound to offset
 * `target`. The pending fields of a linked label form a list threaded
 * through the code itself: each field holds the label's previous value,
 * which is the link to the next older field or 0 at the end.
 */
module Labels {
  import opened Bytes

  /** `sizeof(word)`. */
  const WORD_SIZE: int := 8

  /** `label_link_to`: the value of a label linked at `site`. */
  function LinkTo(site: int): (v: int)
    ensures LinkPosition(v) == site && (site >= 0 <==> v >= WORD_SIZE)
  {
    site + WORD_SIZE
  }

  /** `label_bind_to`: the value of a label bound to `target`. */
  function BindTo(target: int): (v: int)
    ensures Position(v) == target && (target >= 0 <==> v <= -WORD_SIZE)
  {
    -target - WORD_SIZE
  }

  /** `label_position`: the target a bound label's value encodes. */
  function Position(pos: int): (p: int)
    ensures p >= 0 <==> pos <= -WORD_SIZE
  {
    -pos - WORD_SIZE
  }

  /** `label_link_position`: the site a linked label's value encodes. */
  function LinkPosition(pos: int): (p: int)
    ensures p >= 0 <==> pos >= WORD_SIZE
  {
    pos - WORD_SIZE
  }

  /** `label_is_bound`: a bound value is never linked, and is the binding of its position. */
  predicate IsBound(pos: int): (b: bool)
    ensures b ==> !IsLinked(pos) && BindTo(Position(pos)) == pos
  {
    pos < 0
  }

  /** `label_is_linked`: a linked value is the link of its position. */
  predicate IsLinked(pos: int): (b: bool)
    ensures b ==> pos != 0 && LinkTo(LinkPosition(pos)) == pos
  {
    pos > 0
  }

  /** `label`: its `pos` word, which linking and binding overwrite in place. */
  class Label {
    var pos: int

    /** A zero-initialised label: neither linked nor bound. */
    constructor ()
      ensures pos == 0 && StateOf(pos) == Unused
    {
      pos := 0;
    }
  }

  /** The three states a label value can be in. */
  datatype State = Unused | Linked(site: int) | Bound(target: int)

  /** The state a label value encodes: exactly one of unused, linked or bound. */
  function StateOf(pos: int): (s: State)
    ensures s == Unused <==> !IsLinked(pos) && !IsBound(pos)
    ensures s.Linked? <==> IsLinked(pos) && !IsBound(pos)
    ensures s.Bound? <==> IsBound(pos) && !IsLinked(pos)
  {
    if IsBound(pos) then Bound(Position(pos))
    else if IsLinked(pos) then Linked(LinkPosition(pos))
    else Unused
  }

  /** `label_position` inverts `label_bind_to`, and every offset binds to a bound value. */
  lemma {:induction false} BindToRoundTrip(target: int)
    requires target >= 0
    ensures StateOf(BindTo(target)) == Bound(target)
  {
  }

  /** `label_link_position` inverts `label_link_to`, and every offset links to a linked value. */
  lemma {:induction false} LinkToRoundTrip(site: int)
    requires site >= 0
    ensures StateOf(LinkTo(site)) == Linked(site)
  {
  }

  // ---------------------------------------------------------------------
  // The chain of pending fields

  /** The link that the 4-byte field at `site` holds. */
  function NextLink(code: seq<Byte>, site: int): int
    requires 0 <= site && site + 4 <= |code|
  {
    Decode32(code[site..site + 4])
  }

  /**
   * The chain starting at label value `pos` lies inside `code`: every
   * field is in bounds, holds a value that is not bound, and the next field
   * ends at or below the start of this one, so the chain is acyclic.
   */
  ghost predicate WellLinked(code: seq<Byte>, pos: int)
    decreases if pos > 0 then pos else 0
  {
    !IsLinked(pos) || (
      var site := LinkPosition(pos);
      0 <= site && site + 4 <= |code| &&
      var next := NextLink(code, site);
      next >= 0 && (IsLinked(next) ==> LinkPosition(next) + 4 <= site) &&
      WellLinked(code, next))
  }

  /** The sites of the pending fields, newest first. */
  ghost function Sites(code: seq<Byte>, pos: int): seq<int>
    requires WellLinked(code, pos)
    decreases if pos > 0 then pos else 0
  {
    if !IsLinked(pos) then [] else
      var site := LinkPosition(pos);
      [site] + Sites(code, NextLink(code, site))
  }

  /** The pc-relative displacement `target - (site + 4)` a field at `site` must hold, as `(int32_t)`. */
  function Rel32(target: int, site: int): (v: Int32)
    ensures -TWO_31 <= target - (site + 4) < TWO_31 ==> site + 4 + v == target
  {
    Wrap32(target - (site + 4))
  }

  /** `code` with the four bytes at `site` replaced by `value`. */
  function Store32(code: seq<Byte>, site: int, value: Int32): (r: seq<Byte>)
    requires 0 <= site && site + 4 <= |code|
    ensures |r| == |code|
  {
    code[..site] + LE32(value) + code[site + 4..]
  }

  /** The code after every field of the chain at `pos` is patched to point at `target`. */
  ghost function Patched(code: seq<Byte>, pos: int, target: int): seq<Byte>
    requires WellLinked(code, pos)
    decreases if pos > 0 then pos else 0
  {
    if !IsLinked(pos) then code else
      var site := LinkPosition(pos);
      var next := NextLink(code, site);
      var code' := Store32(code, site, Rel32(target, site));
      StableBelow(code, code', next, site);
      Patched(code', next, target)
  }

  /** Bytes at and above `k` do not matter to a chain whose newest field ends at or below `k`. */
  lemma {:induction false} StableBelow(code: seq<Byte>, code': seq<Byte>, pos: int, k: int)
    requires WellLinked(code, pos)
    requires IsLinked(pos) ==> LinkPosition(pos) + 4 <= k
    requires 0 <= k <= |code| && k <= |code'| && code[..k] == code'[..k]
    ensures WellLinked(code', pos)
    ensures Sites(code', pos) == Sites(code, pos)
    decreases if pos > 0 then pos else 0
  {
    if IsLinked(pos) {
      var site := LinkPosition(pos);
      assert code[site..site + 4] == code[..k][site..site + 4];
      assert code'[site..site + 4] == code'[..k][site..site + 4];
      StableBelow(code, code', NextLink(code, site), k);
    }
  }

  /** A chain's fields lie below its newest field, newest first, each ending at or below the next newer one. */
  lemma {:induction false} SitesDescend(code: seq<Byte>, pos: int)
    requires WellLinked(code, pos)
    ensures forall i :: 0 <= i < |Sites(code, pos)| ==>
      0 <= Sites(code, pos)[i] && Sites(code, pos)[i] + 4 <= |code| && Sites(code, pos)[i] + 4 <= pos - 4
    ensures forall i, j :: 0 <= i < j < |Sites(code, pos)| ==> Sites(code, pos)[j] + 4 <= Sites(code, pos)[i]
    decreases if pos > 0 then pos else 0
  {
    if IsLinked(pos) {
      var site := LinkPosition(pos);
      SitesDescend(code, NextLink(code, site));
    }
  }

  /** One link in front of a well-linked chain makes a well-linked chain one site longer. */
  lemma {:induction false} LinkStep(code: seq<Byte>, pos: int)
    requires IsLinked(pos) && 0 <= LinkPosition(pos) && LinkPosition(pos) + 4 <= |code|
    requires NextLink(code, LinkPosition(pos)) >= 0
    requires IsLinked(NextLink(code, LinkPosition(pos))) ==> LinkPosition(NextLink(code, LinkPosition(pos))) + 4 <= LinkPosition(pos)
    requires WellLinked(code, NextLink(code, LinkPosition(pos)))
    ensures WellLinked(code, pos)
    ensures Sites(code, pos) == [LinkPosition(pos)] + Sites(code, NextLink(code, LinkPosition(pos)))
  {
  }

  /** The field of a linked chain's newest site ends inside the code. */
  lemma {:induction false} LinkedFieldInside(code: seq<Byte>, pos: int)
    requires WellLinked(code, pos) && IsLinked(pos)
    ensures 0 <= LinkPosition(pos) && LinkPosition(pos) + 4 <= |code|
  {
  }

  /** The field appended at the end of `code` holds `value`. */
  lemma {:induction false} AppendedField(code: seq<Byte>, value: Int32)
    ensures NextLink(code + LE32(value), |code|) == value
    ensures (code + LE32(value))[..|code|] == code
  {
    var code' := code + LE32(value);
    assert code'[|code|..|code| + 4] == LE32(value);
    Decode32LE32(value);
    assert code'[..|code|] == code;
  }

  /**
   * Linking at the end of the code: appending the label's value as a field
   * and linking the label there yields a chain whose sites are the new site
   * followed by the old ones.
   */
  lemma {:induction false} LinkExtendsChain(code: seq<Byte>, pos: int)
    requires WellLinked(code, pos) && !IsBound(pos) && pos < TWO_31
    ensures WellLinked(code + LE32(pos), LinkTo(|code|))
    ensures Sites(code + LE32(pos), LinkTo(|code|)) == [|code|] + Sites(code, pos)
  {
    var code' := code + LE32(pos);
    AppendedField(code, pos);
    if IsLinked(pos) {
      LinkedFieldInside(code, pos);
    }
    StableBelow(code, code', pos, |code|);
    LinkStep(code', LinkTo(|code|));
  }

  /** Appending bytes leaves a chain, and its sites, as they were. */
  lemma {:induction false} AppendKeepsChain(code: seq<Byte>, more: seq<Byte>, pos: int)
    requires WellLinked(code, pos)
    ensures WellLinked(code + more, pos) && Sites(code + more, pos) == Sites(code, pos)
  {
    SitesDescend(code, pos);
    assert (code + more)[..|code|] == code;
    if IsLinked(pos) {
      assert Sites(code, pos)[0] == LinkPosition(pos);
    }
    StableBelow(code, code + more, pos, |code|);
  }

  /** Patching keeps the length of the code. */
  lemma {:induction false} PatchedLength(code: seq<Byte>, pos: int, target: int)
    requires WellLinked(code, pos)
    ensures |Patched(code, pos, target)| == |code|
    decreases if pos > 0 then pos else 0
  {
    if IsLinked(pos) {
      var site := LinkPosition(pos);
      var code' := Store32(code, site, Rel32(target, site));
      StableBelow(code, code', NextLink(code, site), site);
      PatchedLength(code', NextLink(code, site), target);
    }
  }

  /** Byte `i` lies in none of the four-byte fields of the chain that starts at `pos`. */
  ghost predicate OffChain(code: seq<Byte>, pos: int, i: int)
    requires WellLinked(code, pos)
  {
    forall s :: s in Sites(code, pos) ==> !(s <= i < s + 4)
  }

  /**
   * Patching changes only the chain's fields: a byte that no field of the
   * chain covers keeps its value.
   */
  lemma {:induction false} PatchedElsewhere(code: seq<Byte>, pos: int, target: int, i: int)
    requires WellLinked(code, pos) && 0 <= i < |code| && OffChain(code, pos, i)
    ensures |Patched(code, pos, target)| == |code| && Patched(code, pos, target)[i] == code[i]
    decreases if pos > 0 then pos else 0
  {
    PatchedLength(code, pos, target);
    if IsLinked(pos) {
      var site := LinkPosition(pos);
      var next := NextLink(code, site);
      var code' := Store32(code, site, Rel32(target, site));
      StableBelow(code, code', next, site);
      assert Sites(code, pos) == [site] + Sites(code', next);
      assert OffChain(code', next, i) by {
        forall t | t in Sites(code', next)
          ensures !(t <= i < t + 4)
        {
          assert t in Sites(code, pos);
        }
      }
      PatchedElsewhere(code', next, target, i);
      assert site in Sites(code, pos);
    }
  }

  /** Patching leaves every field of the chain holding the displacement from its end to `target`. */
  lemma {:induction false} PatchedAtSites(code: seq<Byte>, pos: int, target: int, s: int)
    requires WellLinked(code, pos) && s in Sites(code, pos)
    ensures 0 <= s && s + 4 <= |code|
    ensures |Patched(code, pos, target)| == |code| && Patched(code, pos, target)[s..s + 4] == LE32(Rel32(target, s))
    decreases if pos > 0 then pos else 0
  {
    PatchedLength(code, pos, target);
    var site := LinkPosition(pos);
    var next := NextLink(code, site);
    var code' := Store32(code, site, Rel32(target, site));
    StableBelow(code, code', next, site);
    var rest := Sites(code', next);
    assert Sites(code, pos) == [site] + rest;
    if s == site {
      SitesDescend(code', next);
      forall i | site <= i < site + 4
        ensures Patched(code', next, target)[i] == code'[i]
      {
        forall t | t in rest
          ensures !(t <= i < t + 4)
        {
          var k :| 0 <= k < |rest| && rest[k] == t;
        }
        PatchedElsewhere(code', next, target, i);
      }
      assert code'[site..site + 4] == LE32(Rel32(target, site));
    } else {
      PatchedAtSites(code', next, target, s);
    }
  }
}
