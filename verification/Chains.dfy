/** Sequences of byte strings laid end to end: the payloads of a packet chain, the
    blocks of an image. */
module Chains {

  function Flatten(chain: seq<seq<bv8>>): seq<bv8>
    decreases |chain|
  {
    if chain == [] then [] else Flatten(chain[..|chain| - 1]) + chain[|chain| - 1]
  }

  lemma FlattenSnoc(chain: seq<seq<bv8>>, q: seq<bv8>)
    ensures Flatten(chain + [q]) == Flatten(chain) + q
  {
    assert (chain + [q])[..|chain|] == chain;
  }

  lemma {:induction false} FlattenPrefix(chain: seq<seq<bv8>>, k: nat)
    requires k <= |chain|
    ensures Flatten(chain[..k]) <= Flatten(chain)
    decreases |chain|
  {
    if k < |chain| {
      FlattenPrefix(chain[..|chain| - 1], k);
      assert chain[..|chain| - 1][..k] == chain[..k];
    } else {
      assert chain[..k] == chain;
    }
  }

  lemma FlattenTake(chain: seq<seq<bv8>>, k: nat)
    requires k < |chain|
    ensures Flatten(chain[..k + 1]) == Flatten(chain[..k]) + chain[k]
    ensures Flatten(chain[..k + 1]) <= Flatten(chain)
  {
    hide Flatten;
    assert chain[..k + 1] == chain[..k] + [chain[k]];
    FlattenSnoc(chain[..k], chain[k]);
    FlattenPrefix(chain, k + 1);
  }
}
