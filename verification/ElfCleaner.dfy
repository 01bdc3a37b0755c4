/** The dynamic-section loop of elf-cleaner.cpp: entries the Android linker does
    not know are nulled and swapped to the end while the array is scanned. */
module ElfCleaner {
  datatype Dyn = Dyn(tag: int, val: bv64)

  /** is_aarch64 and api_level. */
  datatype Config = Config(aarch64: bool, apiLevel: int)

  const DT_NULL: int := 0
  const DT_RPATH: int := 15
  const DT_RUNPATH: int := 29
  const DT_GNU_HASH: int := 0x6fff_fef5
  const DT_VERSYM: int := 0x6fff_fff0
  const DT_FLAGS_1: int := 0x6fff_fffb
  const DT_VERDEF: int := 0x6fff_fffc
  const DT_VERDEFNUM: int := 0x6fff_fffd
  const DT_VERNEEDED: int := 0x6fff_fffe
  const DT_VERNEEDNUM: int := 0x6fff_ffff
  const DT_AARCH64_BTI_PLT: int := 0x7000_0001
  const DT_AARCH64_PAC_PLT: int := 0x7000_0003
  const DT_AARCH64_VARIANT_PCS: int := 0x7000_0005

  const DF_1_NOW: bv64 := 1
  const DF_1_GLOBAL: bv64 := 2
  const DF_1_NODELETE: bv64 := 8

  /** supported_dt_flags_1. */
  function SupportedFlags(apiLevel: int): bv64 {
    if apiLevel >= 23 then DF_1_NOW | DF_1_GLOBAL | DF_1_NODELETE else DF_1_NOW | DF_1_GLOBAL
  }

  predicate Removable(c: Config, tag: int) {
    || (c.apiLevel < 23 && (tag == DT_GNU_HASH || tag == DT_VERSYM || tag == DT_VERNEEDED || tag == DT_VERNEEDNUM
                            || tag == DT_VERDEF || tag == DT_VERDEFNUM))
    || tag == DT_RPATH
    || (c.apiLevel < 24 && tag == DT_RUNPATH)
    || (c.aarch64 && c.apiLevel < 31
        && (tag == DT_AARCH64_BTI_PLT || tag == DT_AARCH64_PAC_PLT || tag == DT_AARCH64_VARIANT_PCS))
  }

  /** Unsupported DF_1_* flags dropped. */
  function Masked(c: Config, e: Dyn): Dyn {
    if e.tag == DT_FLAGS_1 then e.(val := e.val & SupportedFlags(c.apiLevel)) else e
  }

  /** What an entry contributes to the cleaned section. */
  ghost function Kept(c: Config, e: Dyn): multiset<Dyn> {
    if e.tag == DT_NULL || Removable(c, e.tag) then multiset{} else multiset{Masked(c, e)}
  }

  /** All that must survive: neither null nor removable, flags masked. */
  ghost function Survivors(c: Config, s: seq<Dyn>): multiset<Dyn> {
    if s == [] then multiset{} else Survivors(c, s[..|s| - 1]) + Kept(c, s[|s| - 1])
  }

  ghost predicate Clean(c: Config, e: Dyn) {
    !Removable(c, e.tag) && Masked(c, e) == e
  }

  /** Non-null entries first, nulls after: what a dynamic section looks like. */
  ghost predicate NullsLast(s: seq<Dyn>) {
    forall i, k :: 0 <= i < k < |s| && s[i].tag == DT_NULL ==> s[k].tag == DT_NULL
  }

  lemma {:induction false} SurvivorsUpdate(c: Config, s: seq<Dyn>, i: nat, e: Dyn)
    requires i < |s|
    ensures Survivors(c, s[i := e]) + Kept(c, s[i]) == Survivors(c, s) + Kept(c, e)
  {
    var n := |s| - 1;
    hide Kept;
    if i == n {
      assert s[i := e][..n] == s[..n];
    } else {
      SurvivorsUpdate(c, s[..n], i, e);
      assert s[i := e][..n] == s[..n][i := e];
      Rearrange(Survivors(c, s[..n][i := e]), Survivors(c, s[..n]), Kept(c, s[n]), Kept(c, s[i]), Kept(c, e));
    }
  }

  lemma Rearrange<T>(x: multiset<T>, y: multiset<T>, n: multiset<T>, i: multiset<T>, e: multiset<T>)
    requires x + i == y + e
    ensures x + n + i == y + n + e
  {
    assert x + n + i == (x + i) + n;
    assert y + n + e == (y + e) + n;
  }

  lemma Cancel<T>(x: multiset<T>, y: multiset<T>, n: multiset<T>)
    requires x + n == y + n
    ensures x == y
  {
    assert x == (x + n) - n && y == (y + n) - n;
  }

  lemma SurvivorsSwap(c: Config, s: seq<Dyn>, i: nat, k: nat)
    requires i < |s| && k < |s|
    ensures Survivors(c, s[i := s[k]][k := s[i]]) == Survivors(c, s)
  {
    hide Survivors, Kept;
    var t := s[i := s[k]];
    SurvivorsUpdate(c, s, i, s[k]);
    SurvivorsUpdate(c, t, k, s[i]);
    var a, b, x, y := Kept(c, s[i]), Kept(c, s[k]), Survivors(c, t), Survivors(c, t[k := s[i]]);
    assert x + a == Survivors(c, s) + b;
    assert y + b == x + a;
    Cancel(y, Survivors(c, s), b);
  }

  /** Masking and nulling contribute nothing new. */
  lemma KeptStable(c: Config, e: Dyn)
    ensures Kept(c, Masked(c, e)) == Kept(c, e) && Masked(c, Masked(c, e)) == Masked(c, e)
    ensures Removable(c, e.tag) ==> Kept(c, e.(tag := DT_NULL)) == Kept(c, e)
    ensures Clean(c, e.(tag := DT_NULL))
  {
  }

  const UINT_MAX: nat := 0xffff_ffff

  function Dec(i: nat): (r: nat)
    requires i <= UINT_MAX
  {
    if i == 0 then UINT_MAX else i - 1
  }

  function Inc(i: nat): nat
    requires i <= UINT_MAX
  {
    if i == UINT_MAX then 0 else i + 1
  }

  /** The first loop: the last entry that is not null (index 0 if none is). */
  method LastNonNull(d: array<Dyn>) returns (last: nat)
    requires 0 < d.Length <= UINT_MAX
    ensures last < d.Length && forall k :: last < k < d.Length ==> d[k].tag == DT_NULL
    ensures last > 0 ==> d[last].tag != DT_NULL
  {
    var j := d.Length - 1;
    while j > 0
      invariant 0 <= j < d.Length
      invariant forall k :: j < k < d.Length ==> d[k].tag == DT_NULL
    {
      if d[j].tag != DT_NULL {
        return j;
      }
      j := j - 1;
    }
    return 0;
  }

  /** Everything from `last` + 1 on is null; a wrapped `last` means index -1. */
  ghost predicate NullAfter(s: seq<Dyn>, last: nat) {
    forall k :: 0 <= k < |s| && (last == UINT_MAX || k > last) ==> s[k].tag == DT_NULL
  }

  /** In a section of the usual shape the first `width` entries are the non-null
      ones, unless all are null. */
  ghost predicate Shape(s: seq<Dyn>, width: nat)
    requires width <= |s|
  {
    NullsLast(s)
    && ((forall k :: 0 <= k < width ==> s[k].tag != DT_NULL) || forall k :: 0 <= k < |s| ==> s[k].tag == DT_NULL)
  }

  /** Null the entry at j and put it last. */
  method Remove(d: array<Dyn>, c: Config, j: nat, last: nat)
    requires j <= last < d.Length && Removable(c, d[j].tag)
    modifies d
    ensures d[..] == old(d[..])[j := old(d[last])][last := old(d[j]).(tag := DT_NULL)]
    ensures Survivors(c, d[..]) == old(Survivors(c, d[..]))
  {
    hide Survivors, Kept;
    ghost var s := d[..];
    var e := d[j].(tag := DT_NULL);
    d[j] := e;
    ghost var t := d[..];
    assert t == s[j := e];
    KeptStable(c, s[j]);
    SurvivorsUpdate(c, s, j, e);
    Cancel(Survivors(c, t), Survivors(c, s), Kept(c, e));
    SurvivorsSwap(c, t, j, last);
    d[j], d[last] := d[last], d[j];
    assert d[..] == t[j := t[last]][last := t[j]];
  }

  method Mask(d: array<Dyn>, c: Config, j: nat)
    requires j < d.Length
    modifies d
    ensures d[..] == old(d[..])[j := Masked(c, old(d[j]))]
    ensures Survivors(c, d[..]) == old(Survivors(c, d[..]))
  {
    hide Survivors, Kept;
    ghost var s := d[..];
    KeptStable(c, s[j]);
    SurvivorsUpdate(c, s, j, Masked(c, s[j]));
    Cancel(Survivors(c, s[j := Masked(c, s[j])]), Survivors(c, s), Kept(c, s[j]));
    if d[j].tag == DT_FLAGS_1 {
      var masked := d[j].val & SupportedFlags(c.apiLevel);
      if masked != d[j].val {
        d[j] := d[j].(val := masked);
      }
    }
    assert d[..] == s[j := Masked(c, s[j])];
  }

  /** The second loop. */
  method CleanLoop(d: array<Dyn>, c: Config)
    requires 0 < d.Length <= UINT_MAX
    modifies d
    ensures forall k :: 0 <= k < d.Length ==> Clean(c, d[k])
    ensures Survivors(c, d[..]) == old(Survivors(c, d[..]))
    ensures old(NullsLast(d[..])) ==> NullsLast(d[..])
    ensures (forall k :: 0 <= k < d.Length ==> Clean(c, old(d[k]))) ==> d[..] == old(d[..])
  {
    hide Survivors, Kept, Removable, Masked;
    var last := LastNonNull(d);
    var j := 0;
    ghost var width := last + 1;
    assert old(NullsLast(d[..])) ==> Shape(d[..], width);
    hide NullsLast, Shape, NullAfter;
    while j < d.Length
      invariant 0 <= j <= d.Length && 0 <= width <= d.Length
      invariant last == if width == 0 then UINT_MAX else width - 1
      invariant NullAfter(d[..], last)
      invariant forall k :: 0 <= k < j ==> Clean(c, d[k])
      invariant Survivors(c, d[..]) == old(Survivors(c, d[..]))
      invariant old(NullsLast(d[..])) ==> Shape(d[..], width)
      invariant (forall k :: 0 <= k < d.Length ==> Clean(c, old(d[k]))) ==> d[..] == old(d[..])
      decreases d.Length - j + width
    {
      ghost var s := d[..];
      if Removable(c, d[j].tag) {
        NullIsKept(c);
        InRange(s, j, last);
        Remove(d, c, j, last);
        SwapKeepsShape(s, j, last, s[j].(tag := DT_NULL));
        j, last := Dec(j), Dec(last);
        width := width - 1;
      } else {
        MaskKeepsShape(c, s, j, last, width);
        Mask(d, c, j);
      }
      j := Inc(j);
    }
    ShapeIsNullsLast(d[..], width);
  }

  /** The whole pass over a dynamic section, tags and levels by number. */
  method CleanSection(d: array<Dyn>, c: Config)
    requires 0 < d.Length <= UINT_MAX
    modifies d
    ensures forall k :: 0 <= k < d.Length ==> Clean(c, d[k])
    ensures Survivors(c, d[..]) == old(Survivors(c, d[..]))
    ensures old(NullsLast(d[..])) ==> NullsLast(d[..])
    ensures (forall k :: 0 <= k < d.Length ==> Clean(c, old(d[k]))) ==> d[..] == old(d[..])
    ensures forall k :: 0 <= k < d.Length ==> d[k].tag != 15
    ensures c.apiLevel < 24 ==> forall k :: 0 <= k < d.Length ==> d[k].tag != 29
    ensures c.apiLevel < 23 ==>
      forall k :: 0 <= k < d.Length ==>
        d[k].tag !in {0x6fff_fef5, 0x6fff_fff0, 0x6fff_fffc, 0x6fff_fffd, 0x6fff_fffe, 0x6fff_ffff}
    ensures c.aarch64 && c.apiLevel < 31 ==>
      forall k :: 0 <= k < d.Length ==> d[k].tag !in {0x7000_0001, 0x7000_0003, 0x7000_0005}
    ensures forall e: Dyn :: Supported(c.aarch64, c.apiLevel, e.tag) ==>
      multiset(d[..])[e] == multiset(FlagsCut(c.apiLevel, old(d[..])))[e]
  {
    hide Survivors, Kept, Removable, Masked, Supported, FlagsCut, NullsLast, Clean;
    CleanLoop(d, c);
    CleanTags(c, d[..]);
    SupportedKept(c, old(d[..]), d[..]);
  }

  /** What Android keeps, by number: all but null and DT_RPATH; DT_RUNPATH from level
      24, version and hash entries from 23, and the AArch64 entries from 31 or where
      they mean something else. */
  ghost predicate Supported(aarch64: bool, level: int, tag: int) {
    && tag != 0 && tag != 15
    && (tag == 29 ==> level >= 24)
    && (tag in {0x6fff_fef5, 0x6fff_fff0, 0x6fff_fffc, 0x6fff_fffd, 0x6fff_fffe, 0x6fff_ffff} ==> level >= 23)
    && (tag in {0x7000_0001, 0x7000_0003, 0x7000_0005} ==> !aarch64 || level >= 31)
  }

  /** The entries with the flags word 0x6ffffffb cut to the flags 1, 2 and, from
      level 23, 8. */
  ghost function FlagsCut(level: int, s: seq<Dyn>): (r: seq<Dyn>)
    ensures |r| == |s|
  {
    seq(|s|, i requires 0 <= i < |s| =>
      if s[i].tag == 0x6fff_fffb then s[i].(val := s[i].val & (if level >= 23 then 11 else 3)) else s[i])
  }

  lemma FlagBits(level: int)
    ensures SupportedFlags(level) == if level >= 23 then 11 else 3
  {
  }

  lemma CleanTags(c: Config, s: seq<Dyn>)
    requires forall k :: 0 <= k < |s| ==> Clean(c, s[k])
    ensures forall k :: 0 <= k < |s| ==> s[k].tag != 15
    ensures c.apiLevel < 24 ==> forall k :: 0 <= k < |s| ==> s[k].tag != 29
    ensures c.apiLevel < 23 ==>
      forall k :: 0 <= k < |s| ==>
        s[k].tag !in {0x6fff_fef5, 0x6fff_fff0, 0x6fff_fffc, 0x6fff_fffd, 0x6fff_fffe, 0x6fff_ffff}
    ensures c.aarch64 && c.apiLevel < 31 ==>
      forall k :: 0 <= k < |s| ==> s[k].tag !in {0x7000_0001, 0x7000_0003, 0x7000_0005}
  {
    hide Masked;
  }

  /** The switch removes what is not supported, and nothing else. */
  lemma SupportedExactly(c: Config, tag: int)
    ensures Supported(c.aarch64, c.apiLevel, tag) <==> tag != DT_NULL && !Removable(c, tag)
  {
  }

  lemma KeptOne(c: Config, x: Dyn, e: Dyn)
    requires Supported(c.aarch64, c.apiLevel, e.tag)
    ensures Kept(c, x)[e] == if FlagsCut(c.apiLevel, [x])[0] == e then 1 else 0
  {
    FlagBits(c.apiLevel);
    hide SupportedFlags, Removable, Supported;
    SupportedExactly(c, e.tag);
  }

  /** An entry that is supported survives as often as it is there. */
  lemma {:induction false} SurvivorCount(c: Config, s: seq<Dyn>, e: Dyn)
    requires Supported(c.aarch64, c.apiLevel, e.tag)
    ensures Survivors(c, s)[e] == multiset(FlagsCut(c.apiLevel, s))[e]
  {
    if s != [] {
      var n := |s| - 1;
      SurvivorCount(c, s[..n], e);
      KeptOne(c, s[n], e);
      CutNext(c.apiLevel, s);
      hide Kept, FlagsCut, Supported;
    }
  }

  lemma CutNext(level: int, s: seq<Dyn>)
    requires s != []
    ensures FlagsCut(level, s) == FlagsCut(level, s[..|s| - 1]) + FlagsCut(level, [s[|s| - 1]])
  {
  }

  lemma CleanIsCut(c: Config, s: seq<Dyn>)
    requires forall k :: 0 <= k < |s| ==> Clean(c, s[k])
    ensures FlagsCut(c.apiLevel, s) == s
  {
    FlagBits(c.apiLevel);
    hide SupportedFlags, Removable;
  }

  lemma SupportedKept(c: Config, before: seq<Dyn>, after: seq<Dyn>)
    requires Survivors(c, after) == Survivors(c, before) && forall k :: 0 <= k < |after| ==> Clean(c, after[k])
    ensures forall e: Dyn :: Supported(c.aarch64, c.apiLevel, e.tag) ==>
      multiset(after)[e] == multiset(FlagsCut(c.apiLevel, before))[e]
  {
    hide Supported, Survivors, FlagsCut, Clean;
    CleanIsCut(c, after);
    forall e: Dyn | Supported(c.aarch64, c.apiLevel, e.tag)
      ensures multiset(after)[e] == multiset(FlagsCut(c.apiLevel, before))[e]
    {
      SurvivorCount(c, before, e);
      SurvivorCount(c, after, e);
    }
  }

  lemma ShapeIsNullsLast(s: seq<Dyn>, width: nat)
    requires width <= |s|
    ensures Shape(s, width) ==> NullsLast(s)
  {
  }

  lemma MaskKeepsShape(c: Config, s: seq<Dyn>, j: nat, last: nat, width: nat)
    requires j < |s| && width <= |s| && NullAfter(s, last) && !Removable(c, s[j].tag)
    ensures NullAfter(s[j := Masked(c, s[j])], last)
    ensures Shape(s, width) ==> Shape(s[j := Masked(c, s[j])], width)
    ensures Clean(c, Masked(c, s[j]))
  {
    KeptStable(c, s[j]);
    hide Removable, Kept;
  }

  lemma InRange(s: seq<Dyn>, j: nat, last: nat)
    requires j < |s| && last <= UINT_MAX && NullAfter(s, last) && s[j].tag != DT_NULL
    ensures j <= last < UINT_MAX
  {
  }

  lemma NullIsKept(c: Config)
    ensures !Removable(c, DT_NULL)
  {
  }

  lemma SwapKeepsShape(s: seq<Dyn>, j: nat, last: nat, e: Dyn)
    requires j <= last < |s| && e.tag == DT_NULL && s[j].tag != DT_NULL
    requires NullAfter(s, last) && last < UINT_MAX
    ensures NullAfter(s[j := s[last]][last := e], Dec(last))
    ensures Shape(s, last + 1) ==> Shape(s[j := s[last]][last := e], last)
  {
  }
}
