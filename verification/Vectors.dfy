/** Taking an element out of a vector in the way the kernel does it everywhere: the last element moves
    into its place (kernel/src/pci/nvme.cpp, kernel/src/usb/xhci.cpp, cpp/include/flatmap). */
module Vectors {

  /** `v[n] = move(v.back()); v.pop_back();` */
  function Remove<T>(v: seq<T>, n: nat): seq<T>
    requires n < |v|
  {
    v[n := v[|v| - 1]][..|v| - 1]
  }

  /** The removal loses the element it was asked to remove and no other, whatever the order becomes. */
  lemma RemoveLosesOne<T>(v: seq<T>, n: nat)
    requires n < |v|
    ensures multiset(Remove(v, n)) == multiset(v) - multiset{v[n]}
  {
    var last := |v| - 1;
    assert v == v[..last] + [v[last]];
    if n < last {
      assert v[..last] == v[..n] + [v[n]] + v[n + 1..last];
      assert Remove(v, n) == v[..n] + [v[last]] + v[n + 1..last];
    } else {
      assert Remove(v, n) == v[..last];
    }
  }
}
