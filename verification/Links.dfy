/** Neighbours in a list whose members are known by reference; 0 is the null pointer. */
module Links {
  function NextOf(c: seq<nat>, i: nat): nat { if i + 1 < |c| then c[i + 1] else 0 }

  function PrevOf(c: seq<nat>, i: nat): nat
    requires i <= |c|
  {
    if i > 0 then c[i - 1] else 0
  }
}
