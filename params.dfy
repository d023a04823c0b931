/** The bookkeeping of the command-line options: each of the seven
    mandatory options owns one bit of a mask, an option given twice is an
    error, and the run proceeds only when all seven bits are set. */
module Params {

  datatype ParamError = RepeatedParameter | MissingParameter

  datatype ParamResult = Accepted(paramset: bv8) | Rejected(error: ParamError)

  /** The bits of -g, -r, -m, -f, -s, -e and -o, in that order. */
  const FLAGS: set<bv8> := {1, 2, 4, 8, 16, 32, 64}

  /** The mask with every option's bit set: 1+2+4+8+16+32+64. */
  const ALL_SET: bv8 := 127

  /** Records the option owning `mask`; an option already recorded is
      rejected. */
  function SetParam(paramset: bv8, mask: bv8): (r: ParamResult)
    ensures r.Rejected? <==> paramset & mask != 0
    ensures r.Rejected? ==> r.error == RepeatedParameter
    ensures r.Accepted? ==> r.paramset & mask == mask && r.paramset & !mask == paramset & !mask
  {
    if paramset & mask != 0 then Rejected(RepeatedParameter) else Accepted(paramset | mask)
  }

  /** Records the options of a command line in order, stopping at the first
      repetition, then requires every option to be present. */
  function SetParams(paramset: bv8, masks: seq<bv8>): (r: ParamResult)
    ensures r.Accepted? ==> r.paramset == ALL_SET
    decreases |masks|
  {
    if masks == [] then
      (if paramset == ALL_SET then Accepted(paramset) else Rejected(MissingParameter))
    else
      match SetParam(paramset, masks[0])
      case Rejected(e) => Rejected(e)
      case Accepted(next) => SetParams(next, masks[1..])
  }

  predicate Distinct(masks: seq<bv8>) {
    forall i, j :: 0 <= i < j < |masks| ==> masks[i] != masks[j]
  }

  lemma {:induction false} DistinctCardinality(masks: seq<bv8>)
    requires Distinct(masks)
    ensures |set m | m in masks| == |masks|
  {
    if masks != [] {
      var rest := masks[1..];
      DistinctCardinality(rest);
      assert (set m | m in masks) == (set m | m in rest) + {masks[0]};
      assert masks[0] !in rest;
    }
  }

  /** The flags are single, different bits. */
  lemma FlagBits(paramset: bv8, m: bv8, f: bv8)
    requires m in FLAGS && f in FLAGS
    ensures (paramset | m) & f != 0 <==> paramset & f != 0 || f == m
    ensures (paramset | m) & 128 == paramset & 128
  {
    assert m == 1 || m == 2 || m == 4 || m == 8 || m == 16 || m == 32 || m == 64;
    assert f == 1 || f == 2 || f == 4 || f == 8 || f == 16 || f == 32 || f == 64;
  }

  /** The options already set in `paramset` or still to come in `masks`. */
  function Recorded(paramset: bv8, masks: seq<bv8>): set<bv8> {
    set f | f in FLAGS && (paramset & f != 0 || f in masks)
  }

  lemma AllBitsSet(paramset: bv8)
    requires paramset & 128 == 0
    ensures Recorded(paramset, []) == FLAGS <==> paramset == ALL_SET
  {
    if Recorded(paramset, []) == FLAGS {
      assert 1 in Recorded(paramset, []) && 2 in Recorded(paramset, []) && 4 in Recorded(paramset, []);
      assert 8 in Recorded(paramset, []) && 16 in Recorded(paramset, []);
      assert 32 in Recorded(paramset, []) && 64 in Recorded(paramset, []);
    } else {
      var f :| f in FLAGS && f !in Recorded(paramset, []);
    }
  }

  lemma RecordedStep(paramset: bv8, masks: seq<bv8>)
    requires masks != [] && masks[0] in FLAGS
    ensures Recorded(paramset, masks) == Recorded(paramset | masks[0], masks[1..])
  {
    forall f | f in FLAGS
      ensures f in Recorded(paramset, masks) <==> f in Recorded(paramset | masks[0], masks[1..])
    {
      FlagBits(paramset, masks[0], f);
      assert f in masks <==> f == masks[0] || f in masks[1..];
    }
  }

  /** While no option repeats, recording the options sets exactly their bits
      on top of those already set. */
  lemma {:induction false} SetDistinctFlags(paramset: bv8, masks: seq<bv8>)
    requires Distinct(masks) && forall m :: m in masks ==> m in FLAGS && paramset & m == 0
    requires paramset & 128 == 0
    ensures SetParams(paramset, masks) ==
              if Recorded(paramset, masks) == FLAGS then Accepted(ALL_SET) else Rejected(MissingParameter)
    decreases |masks|
  {
    if masks == [] {
      AllBitsSet(paramset);
    } else {
      var next := paramset | masks[0];
      assert masks[0] in masks;
      assert SetParams(paramset, masks) == SetParams(next, masks[1..]);
      FlagBits(paramset, masks[0], masks[0]);
      forall m | m in masks[1..] ensures next & m == 0 {
        var k :| 1 <= k < |masks| && masks[k] == m;
        assert masks[0] != masks[k];
        FlagBits(paramset, masks[0], m);
      }
      SetDistinctFlags(next, masks[1..]);
      RecordedStep(paramset, masks);
    }
  }

  /** A command line that gives each of the seven options exactly once, in
      any order, is accepted with every bit set. */
  lemma AllOptionsOnce(masks: seq<bv8>)
    requires |masks| == 7 && Distinct(masks) && forall m :: m in masks ==> m in FLAGS
    ensures SetParams(0, masks) == Accepted(ALL_SET)
  {
    SetDistinctFlags(0, masks);
    DistinctCardinality(masks);
    var given := set m | m in masks;
    assert given <= FLAGS;
    assert |FLAGS| == 7;
    assert FLAGS - given == {} by {
      assert |FLAGS - given| == |FLAGS| - |given|;
    }
    assert Recorded(0, masks) == FLAGS;
  }
  /** Once an option to come is already set, or comes twice, the run stops
      at a repetition. */
  lemma {:induction false} RepeatStops(paramset: bv8, masks: seq<bv8>, i: int)
    requires forall m :: m in masks ==> m in FLAGS
    requires 0 <= i < |masks|
    requires paramset & masks[i] != 0 || exists j :: 0 <= j < i && masks[j] == masks[i]
    ensures SetParams(paramset, masks) == Rejected(RepeatedParameter)
    decreases |masks|
  {
    assert masks[0] in masks;
    if paramset & masks[0] == 0 {
      var next := paramset | masks[0];
      assert SetParams(paramset, masks) == SetParams(next, masks[1..]);
      assert masks[i] in masks;
      FlagBits(paramset, masks[0], masks[i]);
      if next & masks[i] == 0 {
        var j :| 0 <= j < i && masks[j] == masks[i];
        assert masks[1..][j - 1] == masks[1..][i - 1];
      }
      RepeatStops(next, masks[1..], i - 1);
    }
  }

  /** A command line that gives some option twice is rejected for the
      repetition. */
  lemma RepeatedOptionRejected(masks: seq<bv8>)
    requires forall m :: m in masks ==> m in FLAGS
    requires !Distinct(masks)
    ensures SetParams(0, masks) == Rejected(RepeatedParameter)
  {
    var j, i :| 0 <= j < i < |masks| && masks[j] == masks[i];
    RepeatStops(0, masks, i);
  }

  /** A command line that gives each option at most once but leaves one out
      is rejected for the missing option. */
  lemma MissingOptionRejected(masks: seq<bv8>)
    requires forall m :: m in masks ==> m in FLAGS
    requires Distinct(masks) && |masks| < 7
    ensures SetParams(0, masks) == Rejected(MissingParameter)
  {
    SetDistinctFlags(0, masks);
    DistinctCardinality(masks);
    var given := set m | m in masks;
    assert Recorded(0, masks) == given;
    assert |FLAGS| == 7;
  }
}
