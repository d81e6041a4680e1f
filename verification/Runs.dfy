// The runs that bitmap iteration produces: up to a word of literal bits, or a longer
// stretch of equal bits.
module Runs {
  import opened Words

  datatype Run = Run(data: Word, size: nat)

  function RunBits(r: Run): (s: seq<bool>)
    ensures |s| == r.size
  {
    if r.size <= WIDTH then r.data[..r.size] else Repeat(r.data != NONE, r.size)
  }

  function AllBits(rs: seq<Run>): seq<bool> {
    if rs == [] then [] else AllBits(rs[..|rs| - 1]) + RunBits(rs[|rs| - 1])
  }

  lemma FillRunBits(bit: bool, n: nat)
    ensures RunBits(Run(Fill(bit), n)) == Repeat(bit, n)
  {
    assert Fill(bit)[0] == bit;
    assert Fill(bit) == NONE <==> !bit;
  }
}
