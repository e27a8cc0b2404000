/** CGImage.cropping(to:) as both crop stages use it.  Whether the crop of a
    rectangle succeeds is the parameter `canCrop`; a null rectangle (None)
    never yields a crop.  A stage saves its crops in the order of the
    candidates, numbering them from 0, so the number a crop gets is the
    number of crops taken before it. */
module Cropping {
  import opened Wrappers
  import opened Geometry

  /** The rectangles of the crops taken, in the order of the candidates: a
      candidate is cropped when it is not null and the crop succeeds. */
  function CropsTaken(candidates: seq<Option<Rect>>, canCrop: Rect -> bool): (rs: seq<Rect>)
    ensures |rs| <= |candidates|
    ensures forall j :: 0 <= j < |rs| ==> Some(rs[j]) in candidates && canCrop(rs[j])
  {
    if |candidates| == 0 then []
    else
      var prev := CropsTaken(candidates[..|candidates| - 1], canCrop);
      var last := candidates[|candidates| - 1];
      if last.Some? && canCrop(last.value) then prev + [last.value] else prev
  }

  /** The crops of a longer list of candidates extend those of a shorter one:
      crops are taken, and numbered, in observation order. */
  lemma {:induction false} CropsTakenAppend(a: seq<Option<Rect>>, b: seq<Option<Rect>>, canCrop: Rect -> bool)
    ensures CropsTaken(a + b, canCrop) == CropsTaken(a, canCrop) + CropsTaken(b, canCrop)
    decreases |b|
  {
    if |b| == 0 {
      assert a + b == a;
    } else {
      var ab, init := a + b, b[..|b| - 1];
      assert ab[..|ab| - 1] == a + init && ab[|ab| - 1] == b[|b| - 1];
      CropsTakenAppend(a, init, canCrop);
    }
  }

  /** One candidate contributes its crop when it is not null and the crop
      succeeds, and nothing otherwise: a failed crop consumes no number. */
  lemma CropsTakenSingle(c: Option<Rect>, canCrop: Rect -> bool)
    ensures CropsTaken([c], canCrop) == if c.Some? && canCrop(c.value) then [c.value] else []
  {
    assert [c][..0] == [];
  }

  /** When every crop succeeds, the j-th crop is that of the j-th candidate. */
  lemma {:induction false} CropsTakenAllSucceed(candidates: seq<Option<Rect>>, canCrop: Rect -> bool)
    requires forall i :: 0 <= i < |candidates| ==> candidates[i].Some? && canCrop(candidates[i].value)
    ensures |CropsTaken(candidates, canCrop)| == |candidates|
    ensures forall j :: 0 <= j < |candidates| ==> CropsTaken(candidates, canCrop)[j] == candidates[j].value
  {
    var n := |candidates|;
    if n > 0 {
      var init := candidates[..n - 1];
      CropsTakenAllSucceed(init, canCrop);
      var prev := CropsTaken(init, canCrop);
      var rs := CropsTaken(candidates, canCrop);
      assert rs == prev + [candidates[n - 1].value];
      forall j | 0 <= j < n
        ensures rs[j] == candidates[j].value
      {
        if j < n - 1 {
          assert rs[j] == prev[j] == init[j].value;
        }
      }
    }
  }

  /** When every crop succeeds, each prefix of the candidates gives as many
      crops as it has candidates. */
  lemma CropsTakenCountAllSucceed(candidates: seq<Option<Rect>>, canCrop: Rect -> bool)
    requires forall i :: 0 <= i < |candidates| ==> candidates[i].Some? && canCrop(candidates[i].value)
    ensures forall j :: 0 <= j <= |candidates| ==> |CropsTaken(candidates[..j], canCrop)| == j
  {
    forall j | 0 <= j <= |candidates|
      ensures |CropsTaken(candidates[..j], canCrop)| == j
    {
      CropsTakenAllSucceed(candidates[..j], canCrop);
    }
  }

  /** A candidate whose crop succeeds becomes crop number
      |CropsTaken(candidates[..j])|: the count of the crops taken before it. */
  lemma CropsTakenAt(candidates: seq<Option<Rect>>, j: nat, canCrop: Rect -> bool)
    requires j < |candidates| && candidates[j].Some? && canCrop(candidates[j].value)
    ensures |CropsTaken(candidates[..j], canCrop)| < |CropsTaken(candidates, canCrop)|
    ensures CropsTaken(candidates, canCrop)[|CropsTaken(candidates[..j], canCrop)|] == candidates[j].value
  {
    var before, rest := candidates[..j], candidates[j + 1..];
    assert candidates == before + [candidates[j]] + rest;
    CropsTakenAppend(before + [candidates[j]], rest, canCrop);
    CropsTakenAppend(before, [candidates[j]], canCrop);
    CropsTakenSingle(candidates[j], canCrop);
  }

  /** Taking one more candidate adds one crop when it succeeds, none otherwise. */
  lemma CropsTakenStep(candidates: seq<Option<Rect>>, j: nat, canCrop: Rect -> bool)
    requires j < |candidates|
    ensures |CropsTaken(candidates[..j + 1], canCrop)|
            == |CropsTaken(candidates[..j], canCrop)|
               + (if candidates[j].Some? && canCrop(candidates[j].value) then 1 else 0)
  {
    assert candidates[..j + 1] == candidates[..j] + [candidates[j]];
    CropsTakenAppend(candidates[..j], [candidates[j]], canCrop);
    CropsTakenSingle(candidates[j], canCrop);
  }

  /** The number of crops taken never decreases along the candidates. */
  lemma CropsTakenMonotone(candidates: seq<Option<Rect>>, j: nat, k: nat, canCrop: Rect -> bool)
    requires j <= k <= |candidates|
    ensures |CropsTaken(candidates[..j], canCrop)| <= |CropsTaken(candidates[..k], canCrop)|
  {
    assert candidates[..k] == candidates[..j] + candidates[j..k];
    CropsTakenAppend(candidates[..j], candidates[j..k], canCrop);
  }
}
