/** The temporary page buffer while a range of words is loaded into it; shared by both bootloaders. */
module PageBuffer {
  import opened Words
  import opened Flash

  /** The buffer holds exactly the words of `image` from index `p` up to `k`, at their distance from `p`. */
  ghost predicate Loaded(temp: map<nat, Word>, image: seq<Byte>, p: nat, k: nat) {
    && p <= k <= |image| && p % 2 == 0 && k % 2 == 0
    && (forall off: nat :: off in temp <==> off % 2 == 0 && off < k - p)
    && (forall off: nat | off in temp :: temp[off] == WordOf(image[p + off], image[p + off + 1]))
  }

  lemma TempKeyOf(g: Geometry, p: nat, k: nat)
    requires g.Valid() && g.Aligned(p) && p <= k < p + g.pageSize && k % 2 == 0
    ensures TempKey(g, k) == k - p
  {
    PageOfUnique(g, k, p);
    PageEven(g, p);
  }

  lemma NotYetLoaded(temp: map<nat, Word>, image: seq<Byte>, p: nat, k: nat)
    requires Loaded(temp, image, p, k)
    ensures p <= k && k - p !in temp
  {
  }

  lemma LoadedWord(temp: map<nat, Word>, image: seq<Byte>, p: nat, k: nat)
    requires Loaded(temp, image, p, k) && k + 2 <= |image|
    ensures Loaded(temp[k - p := WordOf(image[k], image[k + 1])], image, p, k + 2)
  {
  }

  lemma LoadedBytes(temp: map<nat, Word>, image: seq<Byte>, p: nat, k: nat, off: nat)
    requires Loaded(temp, image, p, k) && off < k - p
    ensures TempByte(temp, off) == image[p + off]
  {
    hide WordOf;
    var even := if off % 2 == 0 then off else off - 1;
    assert even in temp;
    BytesOfWord(image[p + even], image[p + even + 1]);
  }

  lemma UnloadedBytes(temp: map<nat, Word>, image: seq<Byte>, p: nat, k: nat, off: nat)
    requires Loaded(temp, image, p, k) && off >= k - p
    ensures TempByte(temp, off) == 0xFF
  {
  }

  /** Writing a blank page stores the loaded words and leaves 0xFF behind them. */
  lemma LoadedPageWritten(g: Geometry, d: Device, p: nat, image: seq<Byte>, q: nat, k: nat)
    requires g.pageSize > 0 && g.IsPageAddressValid(p) && Loaded(d.temp, image, q, k)
    requires forall i | p <= i < p + g.pageSize && i < |d.flash| :: d.flash[i] == 0xFF
    ensures var d' := Exec(g, d, WritePage(p));
            && |d'.flash| == |d.flash|
            && |image| >= k
            && forall i | 0 <= i < |d.flash| ::
                 d'.flash[i] == if p <= i < p + g.pageSize
                                then (if i - p < k - q then image[q + (i - p)] else 0xFF)
                                else d.flash[i]
  {
    var d' := Exec(g, d, WritePage(p));
    assert d'.flash == WrittenAt(d.flash, p, g.pageSize, d.temp);
    hide Loaded, TempByte, Programmed, Exec;
    assert q <= k <= |image| by {
      LoadedBounds(d.temp, image, q, k);
    }
    forall i | p <= i < p + g.pageSize && i < |d.flash|
      ensures d'.flash[i] == if i - p < k - q then image[q + (i - p)] else 0xFF
    {
      if i - p < k - q {
        LoadedBytes(d.temp, image, q, k, i - p);
      } else {
        UnloadedBytes(d.temp, image, q, k, i - p);
      }
    }
  }

  lemma LoadedBounds(temp: map<nat, Word>, image: seq<Byte>, q: nat, k: nat)
    requires Loaded(temp, image, q, k)
    ensures q <= k <= |image|
  {
  }

  /** Where the next word lies: in the same page, or at the start of the next one. */
  lemma NextWordPage(g: Geometry, k: nat)
    requires g.Valid() && k % 2 == 0
    ensures var p := g.PageOf(k);
            if k + 2 < p + g.pageSize then g.PageOf(k + 2) == p
            else k + 2 == p + g.pageSize && g.PageOf(k + 2) == k + 2
  {
    var p := g.PageOf(k);
    PageBounds(g, k);
    PageEven(g, p);
    if k + 2 < p + g.pageSize {
      PageOfUnique(g, k + 2, p);
    } else {
      NextPage(g, p);
      PageOfUnique(g, k + 2, k + 2);
    }
  }

  lemma ExecAllOne(g: Geometry, d: Device, op: FlashOp)
    requires g.pageSize > 0
    ensures ExecAll(g, d, [op]) == Exec(g, d, op)
  {
  }
}
