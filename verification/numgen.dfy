/** The nftables number generator expression: an incremental counter that
    cycles through `modulus` consecutive numbers starting at `offset`, the
    validation of its configuration, and the choice of expression variant. */
module NumGen {
  import opened Bits
  import opened Wrappers

  /** Linux errno values. */
  const EINVAL: int := 22
  const ERANGE: int := 34
  const EOVERFLOW: int := 75

  /** `enum nft_ng_types` */
  const NFT_NG_INCREMENTAL: nat := 0
  const NFT_NG_RANDOM: nat := 1

  /** The netlink attributes of the expression, each possibly absent. */
  datatype Attrs = Attrs(
    dreg: Option<U32>,
    modulus: Option<U32>,
    ngType: Option<U32>,
    offset: Option<U32>,
    setName: Option<string>,
    setId: Option<U32>)

  type NegErrno = e: int | e < 0 witness -1

  /** The outcome of looking up the set named by the attributes. */
  datatype Lookup = Found(setRef: nat) | LookupError(errno: NegErrno)

  /** `struct nft_ng_inc`. The counter (an `atomic_t`) is kept as its 32-bit
      pattern; `lookup` is absent until a map init stores a lookup result. */
  datatype IncPriv = IncPriv(dreg: nat, modulus: U32, counter: U32, offset: U32, lookup: Option<Lookup>)

  /** `struct nft_ng_random` */
  datatype RandomPriv = RandomPriv(dreg: nat, modulus: U32, offset: U32, lookup: Option<Lookup>)

  /** A configuration the incremental init accepts, with the counter below
      the modulus. */
  predicate Valid(priv: IncPriv) {
    && 1 <= priv.modulus
    && priv.offset + priv.modulus - 1 < U32_LIMIT
    && priv.counter < priv.modulus
  }

  // ---- generating ----

  /** `nft_ng_inc_gen`, with the compare-and-swap loop as one step: the
      counter advances by one in `u32` arithmetic and restarts at 0 when it
      reaches the modulus; the result is the new counter plus the offset,
      again in `u32` arithmetic. Only the counter changes. On a valid
      configuration the counter steps modulo the modulus and the result stays
      within `offset .. offset + modulus - 1` without wrapping. */
  function IncGen(priv: IncPriv): (r: (IncPriv, U32))
    ensures r.0 == priv.(counter := r.0.counter)
    ensures Valid(priv) ==>
      && Valid(r.0)
      && r.0.counter == (priv.counter + 1) % priv.modulus
      && r.1 == priv.offset + r.0.counter
      && priv.offset <= r.1 <= priv.offset + priv.modulus - 1
  {
    var next := (priv.counter + 1) % U32_LIMIT;
    var nval := if next < priv.modulus then next else 0;
    StepMod(priv.counter, priv.modulus);
    (priv.(counter := nval), (nval + priv.offset) % U32_LIMIT)
  }

  lemma ModPlusPeriod(i: nat, m: nat)
    requires m > 0
    ensures (i + m) % m == i % m
  {
    var q, r := i / m, i % m;
    assert i + m == (q + 1) * m + r;
    DivModUnique(i + m, m, q + 1, r);
  }

  /** The counter step in plain arithmetic: one past a number below the
      modulus, wrapped to 0 at the modulus. */
  lemma StepMod(c: nat, m: nat)
    ensures c < m ==> (c + 1) % m == if c + 1 < m then c + 1 else 0
  {
    if c < m {
      if c + 1 < m {
        DivModUnique(c + 1, m, 0, c + 1);
      } else {
        DivModUnique(c + 1, m, 1, 0);
      }
    }
  }

  /** `k` successive generator steps and the numbers they produce. */
  function Run(priv: IncPriv, k: nat): (r: (IncPriv, seq<U32>))
    ensures |r.1| == k
    decreases k
  {
    if k == 0 then (priv, [])
    else
      var (p1, out) := IncGen(priv);
      var (pk, outs) := Run(p1, k - 1);
      (pk, [out] + outs)
  }

  /** On a valid configuration the counter after `k` steps is the starting
      counter advanced `k` times modulo the modulus. */
  lemma {:induction false} RunCounter(priv: IncPriv, k: nat)
    requires Valid(priv)
    ensures Valid(Run(priv, k).0)
    ensures Run(priv, k).0.counter == (priv.counter + k) % priv.modulus
    decreases k
  {
    var m, c := priv.modulus, priv.counter;
    if k == 0 {
      DivModUnique(c, m, 0, c);
    } else {
      var p1 := IncGen(priv).0;
      RunCounter(p1, k - 1);
      assert Run(priv, k).0 == Run(p1, k - 1).0;
      ModAddMod(c + 1, k - 1, m);
    }
  }

  /** On a valid configuration the `i`-th number produced is the offset plus
      the counter advanced `i + 1` times modulo the modulus. */
  lemma {:induction false} RunSpec(priv: IncPriv, k: nat)
    requires Valid(priv)
    ensures Valid(Run(priv, k).0)
    ensures Run(priv, k).0.counter == (priv.counter + k) % priv.modulus
    ensures forall i :: 0 <= i < k ==>
      Run(priv, k).1[i] == priv.offset + (priv.counter + i + 1) % priv.modulus
    decreases k
  {
    RunCounter(priv, k);
    if k > 0 {
      var m, c := priv.modulus, priv.counter;
      var step := IncGen(priv);
      var rest := Run(step.0, k - 1);
      assert Run(priv, k).1 == [step.1] + rest.1;
      RunSpec(step.0, k - 1);
      forall i | 0 <= i < k
        ensures Run(priv, k).1[i] == priv.offset + (c + i + 1) % m
      {
        if i > 0 {
          OutputShift(c, i, m);
          assert Run(priv, k).1[i] == rest.1[i - 1];
        }
      }
    }
  }

  lemma OutputShift(c: nat, i: nat, m: nat)
    requires c < m && i > 0
    ensures ((c + 1) % m + (i - 1) + 1) % m == (c + i + 1) % m
  {
    ModAddMod(c + 1, i, m);
  }

  /** After `modulus` steps the counter is back where it started. */
  lemma RunCycles(priv: IncPriv)
    requires Valid(priv)
    ensures Run(priv, priv.modulus).0 == priv
  {
    var m: nat, c: nat := priv.modulus, priv.counter;
    RunSpec(priv, m);
    DivModUnique(c + m, m, 1, c);
    IncGenFrame(priv, m);
  }

  lemma {:induction false} IncGenFrame(priv: IncPriv, k: nat)
    ensures Run(priv, k).0 == priv.(counter := Run(priv, k).0.counter)
    decreases k
  {
    if k > 0 {
      IncGenFrame(IncGen(priv).0, k - 1);
    }
  }

  // ---- configuring ----

  /** The offset attribute when present, the offset already held otherwise. */
  function OffsetOr(attrs: Attrs, held: U32): U32 {
    if attrs.offset.Some? then attrs.offset.value else held
  }

  /** `nft_ng_inc_init`. `reg` is what `nft_parse_register` makes of the
      destination register attribute and `validate` what
      `nft_validate_register_store` returns for it. Offset and modulus are
      stored before they are checked; a zero modulus is out of range, a range
      that does not fit in `u32` overflows, and in both cases the counter and
      register are left alone. Otherwise the counter starts one below the
      modulus and the register check decides the result. */
  function IncInit(priv: IncPriv, attrs: Attrs, reg: nat, validate: int): (r: (IncPriv, int))
    requires attrs.modulus.Some?
    ensures var m, off := attrs.modulus.value, OffsetOr(attrs, priv.offset);
      && r.0.modulus == m && r.0.offset == off && r.0.lookup == priv.lookup
      && (m == 0 ==> r.1 == -ERANGE)
      && (m != 0 && off + m - 1 >= U32_LIMIT ==> r.1 == -EOVERFLOW)
      && (m == 0 || off + m - 1 >= U32_LIMIT ==> r.0.counter == priv.counter && r.0.dreg == priv.dreg)
      && (m != 0 && off + m - 1 < U32_LIMIT ==>
            r.1 == validate && r.0.dreg == reg && r.0.counter == m - 1 && Valid(r.0))
  {
    var m := attrs.modulus.value;
    var p1 := priv.(offset := OffsetOr(attrs, priv.offset), modulus := m);
    if m == 0 then (p1, -ERANGE)
    else if (p1.offset + m - 1) % U32_LIMIT < p1.offset then (p1, -EOVERFLOW)
    else (p1.(dreg := reg, counter := m - 1), validate)
  }

  /** An accepted incremental configuration produces `offset`, `offset + 1`,
      ... , `offset + modulus - 1` and then starts again at `offset`. */
  lemma IncInitThenRun(priv: IncPriv, attrs: Attrs, reg: nat, k: nat)
    requires attrs.modulus.Some? && attrs.modulus.value != 0
    requires OffsetOr(attrs, priv.offset) + attrs.modulus.value - 1 < U32_LIMIT
    ensures var p := IncInit(priv, attrs, reg, 0).0;
      forall i :: 0 <= i < k ==>
        Run(p, k).1[i] == OffsetOr(attrs, priv.offset) + i % attrs.modulus.value
  {
    var p := IncInit(priv, attrs, reg, 0).0;
    var m := attrs.modulus.value;
    RunSpec(p, k);
    assert p.counter == m - 1;
    forall i | 0 <= i < k
      ensures (p.counter + i + 1) % m == i % m
    {
      ModPlusPeriod(i, m);
    }
  }

  /** `nft_ng_random_init`: the same checks as the incremental init, without
      a counter. Seeding the per-CPU random state is not modelled. */
  function RandomInit(priv: RandomPriv, attrs: Attrs, reg: nat, validate: int): (r: (RandomPriv, int))
    requires attrs.modulus.Some?
    ensures var m, off := attrs.modulus.value, OffsetOr(attrs, priv.offset);
      && r.0.modulus == m && r.0.offset == off && r.0.lookup == priv.lookup
      && (m == 0 ==> r.1 == -ERANGE)
      && (m != 0 && off + m - 1 >= U32_LIMIT ==> r.1 == -EOVERFLOW && r.0.dreg == priv.dreg)
      && (m != 0 && off + m - 1 < U32_LIMIT ==> r.1 == validate && r.0.dreg == reg)
  {
    var m := attrs.modulus.value;
    var p1 := priv.(offset := OffsetOr(attrs, priv.offset), modulus := m);
    if m == 0 then (p1, -ERANGE)
    else if (p1.offset + m - 1) % U32_LIMIT < p1.offset then (p1, -EOVERFLOW)
    else (p1.(dreg := reg), validate)
  }

  /** The error code of a set lookup, or 0 when the set was found. */
  function LookupResult(lookup: Lookup): int {
    if lookup.LookupError? then lookup.errno else 0
  }

  /** `nft_ng_inc_map_init` as written: the base init runs but its result is
      discarded, so the map variant fails only when the set lookup fails. */
  function IncMapInitAsWritten(priv: IncPriv, attrs: Attrs, reg: nat, validate: int, lookup: Lookup): (r: (IncPriv, int))
    requires attrs.modulus.Some?
    ensures r.0 == IncInit(priv, attrs, reg, validate).0.(lookup := Some(lookup))
    ensures r.1 == 0 <==> lookup.Found?
  {
    var (p1, _) := IncInit(priv, attrs, reg, validate);
    (p1.(lookup := Some(lookup)), LookupResult(lookup))
  }

  /** `nft_ng_inc_map_init` with the base init's result checked first: it
      succeeds only for a configuration the incremental init accepts and a
      set that was found. */
  function IncMapInit(priv: IncPriv, attrs: Attrs, reg: nat, validate: int, lookup: Lookup): (r: (IncPriv, int))
    requires attrs.modulus.Some?
    ensures IncInit(priv, attrs, reg, validate).1 != 0 ==> r.1 == IncInit(priv, attrs, reg, validate).1
    ensures r.1 == 0 <==> IncInit(priv, attrs, reg, validate).1 == 0 && lookup.Found?
    ensures r.1 == 0 ==> Valid(r.0) && r.0.lookup == Some(lookup)
  {
    var (p1, err) := IncInit(priv, attrs, reg, validate);
    if err != 0 then (p1, err)
    else (p1.(lookup := Some(lookup)), LookupResult(lookup))
  }

  /** `nft_ng_random_map_init` as written: the base init's result is
      discarded as in the incremental variant. */
  function RandomMapInitAsWritten(priv: RandomPriv, attrs: Attrs, reg: nat, validate: int, lookup: Lookup): (r: (RandomPriv, int))
    requires attrs.modulus.Some?
    ensures r.0 == RandomInit(priv, attrs, reg, validate).0.(lookup := Some(lookup))
    ensures r.1 == 0 <==> lookup.Found?
  {
    var (p1, _) := RandomInit(priv, attrs, reg, validate);
    (p1.(lookup := Some(lookup)), LookupResult(lookup))
  }

  /** `nft_ng_random_map_init` with the base init's result checked first. */
  function RandomMapInit(priv: RandomPriv, attrs: Attrs, reg: nat, validate: int, lookup: Lookup): (r: (RandomPriv, int))
    requires attrs.modulus.Some?
    ensures RandomInit(priv, attrs, reg, validate).1 != 0 ==> r.1 == RandomInit(priv, attrs, reg, validate).1
    ensures r.1 == 0 <==> RandomInit(priv, attrs, reg, validate).1 == 0 && lookup.Found?
    ensures r.1 == 0 ==> 1 <= r.0.modulus && r.0.offset + r.0.modulus - 1 < U32_LIMIT
  {
    var (p1, err) := RandomInit(priv, attrs, reg, validate);
    if err != 0 then (p1, err)
    else (p1.(lookup := Some(lookup)), LookupResult(lookup))
  }

  /** The as-written map inits accept a zero modulus, and the incremental
      one a range that wraps past `u32`: with offset `0xffffffff` and modulus 2 it reports success,
      and the first number generated is 0, below the offset. */
  lemma MapInitAcceptsBadConfig()
    ensures var attrs := Attrs(Some(1), Some(0), Some(0), None, Some("s"), None);
      var priv := IncPriv(0, 0, 0, 0, None);
      IncMapInitAsWritten(priv, attrs, 1, 0, Found(7)).1 == 0
      && !Valid(IncMapInitAsWritten(priv, attrs, 1, 0, Found(7)).0)
    ensures var attrs := Attrs(Some(1), Some(2), Some(0), Some(0xffff_ffff), Some("s"), None);
      var priv := IncPriv(0, 0, 0, 0, None);
      var r := IncMapInitAsWritten(priv, attrs, 1, 0, Found(7));
      r.1 == 0 && IncGen(r.0).1 == 0 < r.0.offset
    ensures var attrs := Attrs(Some(1), Some(0), Some(1), None, Some("s"), None);
      var r := RandomMapInitAsWritten(RandomPriv(0, 0, 0, None), attrs, 1, 0, Found(7));
      r.1 == 0 && r.0.modulus == 0
  {
  }

  /** The corrected map inits reject those configurations. */
  lemma MapInitRejectsBadConfig(priv: IncPriv, rpriv: RandomPriv, attrs: Attrs, reg: nat, validate: int, lookup: Lookup)
    requires attrs.modulus.Some?
    requires attrs.modulus.value == 0 || OffsetOr(attrs, priv.offset) + attrs.modulus.value - 1 >= U32_LIMIT
    requires attrs.modulus.value == 0 || OffsetOr(attrs, rpriv.offset) + attrs.modulus.value - 1 >= U32_LIMIT
    ensures IncMapInit(priv, attrs, reg, validate, lookup).1 < 0
    ensures RandomMapInit(rpriv, attrs, reg, validate, lookup).1 < 0
  {
  }

  // ---- choosing the variant ----

  /** The four expression variants: incremental or random, each with or
      without a map lookup of the generated number. */
  datatype Ops = IncOps | IncMapOps | RandomOps | RandomMapOps {
    predicate IsMap() { this.IncMapOps? || this.RandomMapOps? }
    predicate IsIncremental() { this.IncOps? || this.IncMapOps? }
  }

  datatype Selected = Selected(ops: Ops) | SelectError(errno: int)

  /** `nft_ng_select_ops`: destination register, modulus and type must be
      present and the type known; the set name picks the map variant. */
  function SelectOps(attrs: Attrs): (r: Selected)
    ensures r.Selected? <==>
      && attrs.dreg.Some? && attrs.modulus.Some? && attrs.ngType.Some?
      && (attrs.ngType.value == NFT_NG_INCREMENTAL || attrs.ngType.value == NFT_NG_RANDOM)
    ensures r.SelectError? ==> r.errno == -EINVAL
    ensures r.Selected? ==>
      && (r.ops.IsMap() <==> attrs.setName.Some?)
      && (r.ops.IsIncremental() <==> attrs.ngType.value == NFT_NG_INCREMENTAL)
  {
    if attrs.dreg.None? || attrs.modulus.None? || attrs.ngType.None? then SelectError(-EINVAL)
    else if attrs.ngType.value == NFT_NG_INCREMENTAL then
      if attrs.setName.Some? then Selected(IncMapOps) else Selected(IncOps)
    else if attrs.ngType.value == NFT_NG_RANDOM then
      if attrs.setName.Some? then Selected(RandomMapOps) else Selected(RandomOps)
    else SelectError(-EINVAL)
  }

  /** The `init` of the chosen incremental variant (the ops tables), with
      the corrected map init. */
  function IncOpsInit(ops: Ops, priv: IncPriv, attrs: Attrs, reg: nat, validate: int, lookup: Lookup): (r: (IncPriv, int))
    requires ops.IsIncremental() && attrs.modulus.Some?
    ensures r.1 == 0 ==> Valid(r.0) && r.0.counter == r.0.modulus - 1
  {
    if ops.IncMapOps? then IncMapInit(priv, attrs, reg, validate, lookup)
    else IncInit(priv, attrs, reg, validate)
  }

  /** Any attributes the selection accepts satisfy what the inits demand
      of their callers, and an accepted incremental expression's first number
      is its offset. */
  lemma SelectThenInit(attrs: Attrs, priv: IncPriv, reg: nat, validate: int, lookup: Lookup)
    requires SelectOps(attrs).Selected? && SelectOps(attrs).ops.IsIncremental()
    ensures attrs.modulus.Some?
    ensures var r := IncOpsInit(SelectOps(attrs).ops, priv, attrs, reg, validate, lookup);
      r.1 == 0 ==> IncGen(r.0).1 == r.0.offset
  {
  }
}
