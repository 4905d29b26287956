/** WaxsealCli.run: a bounded least-recently-used cache of outcomes with a time to live. */
module OutcomeCache {
  import opened Binary

  const CACHE_TTL_S := 30.0

  // What the build offers and which invocations depend on more than the stamped files.
  datatype Config = Config(readOnly: set<string>, available: set<string>, uncached: set<string>, networkFlags: set<string>)

  // stamp is the identity of every input file.
  datatype Key<S> = Key(command: string, args: seq<string>, stamp: S)

  datatype Result<V> = WriteRefused | Unavailable | Ran(outcome: V) | Raised

  predicate Skips(config: Config, command: string, args: seq<string>) {
    || command in config.uncached
    || exists arg, flag :: arg in args && flag in config.networkFlags && (arg == flag || flag + "=" <= arg)
  }

  lemma SkipsWhen(config: Config, command: string, args: seq<string>)
    ensures Skips(config, command, args) <==>
            || command in config.uncached
            || exists i, flag :: 0 <= i < |args| && flag in config.networkFlags && (args[i] == flag || flag + "=" <= args[i])
    ensures (exists arg, flag :: arg in args && flag in config.networkFlags && (arg == flag || flag + "=" <= arg)) ==>
              Skips(config, command, args)
  {
    if Skips(config, command, args) && command !in config.uncached {
      var arg, flag :| arg in args && flag in config.networkFlags && (arg == flag || flag + "=" <= arg);
      var i :| 0 <= i < |args| && args[i] == arg;
    }
    if i, flag :| 0 <= i < |args| && flag in config.networkFlags && (args[i] == flag || flag + "=" <= args[i]) {
      assert args[i] in args;
    }
  }

  // One call: the key, what the subprocess would return now (None is a timeout), and the two clock readings.
  datatype Call<S, V> = Call(key: Key<S>, current: Option<V>, lookedUpAt: real, storedAt: real)

  function Uncached<S, V>(config: Config, call: Call<S, V>): Result<V> {
    if call.key.command !in config.readOnly then WriteRefused
    else if call.key.command !in config.available then Unavailable
    else if call.current.None? then Raised
    else Ran(call.current.value)
  }

  datatype Slot<S, V> = Slot(key: Key<S>, outcome: V, storedAt: real)

  function Keys<S, V>(slots: seq<Slot<S, V>>): (r: seq<Key<S>>)
    ensures |r| == |slots| && forall i :: 0 <= i < |slots| ==> r[i] == slots[i].key
  {
    seq(|slots|, i requires 0 <= i < |slots| => slots[i].key)
  }

  function Without<T(==)>(s: seq<T>, x: T): (r: seq<T>)
    ensures |r| <= |s|
    ensures x !in r && forall y :: y in r ==> y in s
    ensures x !in s ==> r == s
  {
    if s == [] then []
    else
      var init, last := Without(s[..|s| - 1], x), s[|s| - 1];
      assert s == s[..|s| - 1] + [last];
      if last == x then init else init + [last]
  }

  lemma {:induction false} WithoutAppend<T>(a: seq<T>, b: seq<T>, x: T)
    ensures Without(a + b, x) == Without(a, x) + Without(b, x)
    decreases |b|
  {
    if b == [] {
      assert a + b == a;
    } else {
      assert (a + b)[..|a + b| - 1] == a + b[..|b| - 1];
      WithoutAppend(a, b[..|b| - 1], x);
    }
  }

  predicate Distinct<T(==)>(s: seq<T>) {
    forall i, j :: 0 <= i < j < |s| ==> s[i] != s[j]
  }

  lemma {:induction false} WithoutDistinct<T>(s: seq<T>, x: T)
    requires Distinct(s)
    ensures Distinct(Without(s, x))
    decreases |s|
  {
    if s != [] {
      WithoutDistinct(s[..|s| - 1], x);
      assert s[|s| - 1] !in s[..|s| - 1];
    }
  }

  predicate Suffix<T(==)>(s: seq<T>, whole: seq<T>) {
    |s| <= |whole| && s == whole[|whole| - |s|..]
  }

  function LastN<T>(s: seq<T>, n: nat): (r: seq<T>)
    ensures |r| == Min(n, |s|) && (|s| <= n ==> r == s)
    ensures forall x :: x in r ==> x in s
  {
    if |s| <= n then s else s[|s| - n..]
  }

  // ----- Recency -----

  // A cacheable call either produced or served an outcome, or its subprocess raised.
  datatype Use<S> = Use(key: Key<S>, ok: bool)

  function UseOf<S, V>(config: Config, call: Call<S, V>): seq<Use<S>> {
    if call.key.command !in config.readOnly || call.key.command !in config.available
       || Skips(config, call.key.command, call.key.args) then []
    else [Use(call.key, call.current.Some?)]
  }

  // The uses a sequence of calls amounts to.
  function UsesOf<S, V>(config: Config, calls: seq<Call<S, V>>): seq<Use<S>> {
    if calls == [] then []
    else UsesOf(config, calls[..|calls| - 1]) + UseOf(config, calls[|calls| - 1])
  }

  predicate StoredBy<S(==), V(==)>(slot: Slot<S, V>, call: Call<S, V>) {
    slot.key == call.key && Some(slot.outcome) == call.current && slot.storedAt == call.storedAt
  }

  // Keys by their last successful use, the latest at the end; a failed run forgets its key.
  function Recency<S(==)>(uses: seq<Use<S>>): seq<Key<S>> {
    if uses == [] then []
    else
      var u := uses[|uses| - 1];
      var others := Without(Recency(uses[..|uses| - 1]), u.key);
      if u.ok then others + [u.key] else others
  }

  lemma RecencySnoc<S>(uses: seq<Use<S>>, u: Use<S>)
    ensures Recency(uses + [u]) == if u.ok then Without(Recency(uses), u.key) + [u.key] else Without(Recency(uses), u.key)
  {
    assert (uses + [u])[..|uses|] == uses;
  }

  // Dropping a key, and moving or adding it at the end, commute with taking a suffix.
  lemma SuffixUsed<T>(s: seq<T>, whole: seq<T>, x: T, tail: seq<T>)
    requires Suffix(s, whole)
    ensures Suffix(Without(s, x) + tail, Without(whole, x) + tail)
  {
    hide Without;
    var front := whole[..|whole| - |s|];
    assert whole == front + s;
    WithoutAppend(front, s, x);
    var before, kept := Without(front, x), Without(s, x) + tail;
    assert Without(whole, x) + tail == before + kept;
  }

  // Forgetting a key, or using it last, on the held keys and on the whole history alike.
  lemma KeyUsed<T>(held: seq<T>, whole: seq<T>, x: T, n: nat)
    requires Distinct(held) && Suffix(held, whole)
    ensures Distinct(Without(held, x)) && Suffix(Without(held, x), Without(whole, x))
    ensures Distinct(LastN(Without(held, x) + [x], n)) && Suffix(LastN(Without(held, x) + [x], n), Without(whole, x) + [x])
  {
    hide Without;
    WithoutDistinct(held, x);
    SuffixUsed(held, whole, x, []);
    SuffixUsed(held, whole, x, [x]);
    assert Without(held, x) + [] == Without(held, x) && Without(whole, x) + [] == Without(whole, x);
  }

  lemma {:induction false} KeysWithout<S, V>(slots: seq<Slot<S, V>>, i: nat)
    requires i < |slots| && Distinct(Keys(slots))
    ensures Keys(slots[..i] + slots[i + 1..]) == Without(Keys(slots), slots[i].key)
  {
    hide Keys;
    WithoutAt(Keys(slots), i);
    assert Keys(slots[..i] + slots[i + 1..]) == Keys(slots)[..i] + Keys(slots)[i + 1..];
  }

  lemma {:induction false} WithoutAt<T>(s: seq<T>, i: nat)
    requires i < |s| && Distinct(s)
    ensures Without(s, s[i]) == s[..i] + s[i + 1..]
  {
    hide Without;
    var x, a, b := s[i], s[..i], s[i + 1..];
    assert s == a + ([x] + b);
    WithoutAppend(a, [x] + b, x);
    WithoutAppend([x], b, x);
    WithoutOnly(x);
  }

  lemma WithoutOnly<T>(x: T)
    ensures Without([x], x) == []
  {
    assert [x][..0] == [];
  }

  // ----- The cached runner -----

  class Cli<S(==, !new), V(!new)> {
    const config: Config
    const maxSize: nat
    var slots: seq<Slot<S, V>>
    ghost var uses: seq<Use<S>>

    // truth is what a cacheable invocation returns, as a function of its key alone.
    ghost predicate Valid(truth: Key<S> -> Option<V>)
      reads this
    {
      && |slots| <= maxSize && Distinct(Keys(slots))
      && Suffix(Keys(slots), Recency(uses))
      && forall slot :: slot in slots ==> truth(slot.key) == Some(slot.outcome)
    }

    constructor (config: Config, maxSize: nat)
      ensures this.config == config && this.maxSize == maxSize && slots == [] && uses == []
      ensures Distinct(Keys(slots)) && Suffix(Keys(slots), Recency(uses))
    {
      this.config, this.maxSize, slots, uses := config, maxSize, [], [];
    }

    method Find(key: Key<S>) returns (i: nat)
      requires Distinct(Keys(slots))
      ensures i <= |slots|
      ensures forall slot :: slot in slots && slot.key == key ==> i < |slots| && slot == slots[i]
      ensures i < |slots| ==> slots[i].key == key
      ensures i == |slots| ==> key !in Keys(slots) && Without(Keys(slots), key) == Keys(slots)
    {
      i := 0;
      while i < |slots|
        invariant i <= |slots|
        invariant forall j :: 0 <= j < i ==> slots[j].key != key
      {
        if slots[i].key == key {
          assert forall j :: 0 <= j < |slots| && slots[j].key == key ==> Keys(slots)[j] == Keys(slots)[i];
          return;
        }
        i := i + 1;
      }
    }

    // served is the slot an answer came from, if it came from the cache.
    method Run(call: Call<S, V>, ghost truth: Key<S> -> Option<V>) returns (r: Result<V>, served: Option<Slot<S, V>>)
      requires Valid(truth)
      requires !Skips(config, call.key.command, call.key.args) ==> call.current == truth(call.key)
      modifies this
      ensures Valid(truth)
      ensures r == Uncached(config, call)
      ensures r.WriteRefused? <==> call.key.command !in config.readOnly
      ensures r.Unavailable? <==> call.key.command in config.readOnly && call.key.command !in config.available
      // What depends on more than the stamped files is never served and leaves the cache alone.
      ensures call.key.command in config.uncached ==> served.None? && slots == old(slots)
      ensures (exists arg, flag :: arg in call.key.args && flag in config.networkFlags && (arg == flag || flag + "=" <= arg)) ==>
                served.None? && slots == old(slots)
      ensures served.Some? ==>
                && served.value in old(slots) && served.value.key == call.key && r == Ran(served.value.outcome)
                && call.lookedUpAt - served.value.storedAt <= 30.0
                && !Skips(config, call.key.command, call.key.args)
      // An entry young enough is served; only the oldest uses leave, and only when the bound is exceeded.
      ensures r.Ran? && !Skips(config, call.key.command, call.key.args) ==>
                && (served.Some? <==> exists slot :: slot in old(slots) && slot.key == call.key
                                                     && call.lookedUpAt - slot.storedAt <= 30.0)
                && Keys(slots) == LastN(Without(old(Keys(slots)), call.key) + [call.key], maxSize)
      ensures forall slot :: slot in slots ==> slot in old(slots) || StoredBy(slot, call)
      ensures uses == old(uses) + UseOf(config, call)
    {
      hide Without, LastN, Suffix, Distinct, Keys, Skips, Recency, StoredBy;
      if call.key.command !in config.readOnly {
        return WriteRefused, None;
      }
      if call.key.command !in config.available {
        return Unavailable, None;
      }
      SkipsWhen(config, call.key.command, call.key.args);
      if Skips(config, call.key.command, call.key.args) {
        return if call.current.None? then Raised else Ran(call.current.value), None;
      }
      r, served := RunStamped(call, truth);
    }

    // A call that the stamp says everything about.
    method RunStamped(call: Call<S, V>, ghost truth: Key<S> -> Option<V>) returns (r: Result<V>, served: Option<Slot<S, V>>)
      requires Valid(truth) && call.current == truth(call.key)
      modifies this
      ensures Valid(truth)
      ensures r == if call.current.None? then Raised else Ran(call.current.value)
      ensures served.Some? ==>
                && served.value in old(slots) && served.value.key == call.key && r == Ran(served.value.outcome)
                && call.lookedUpAt - served.value.storedAt <= 30.0
      ensures r.Ran? ==>
                && (served.Some? <==> exists slot :: slot in old(slots) && slot.key == call.key
                                                     && call.lookedUpAt - slot.storedAt <= 30.0)
                && Keys(slots) == LastN(Without(old(Keys(slots)), call.key) + [call.key], maxSize)
      ensures forall slot :: slot in slots ==> slot in old(slots) || StoredBy(slot, call)
      ensures uses == old(uses) + [Use(call.key, call.current.Some?)]
    {
      hide Without, LastN, Suffix, Distinct, Keys, Recency;
      served := None;
      var i := Find(call.key);
      KeyUsed(Keys(slots), Recency(uses), call.key, maxSize);
      if i < |slots| {
        var slot := slots[i];
        if call.lookedUpAt - slot.storedAt <= CACHE_TTL_S {
          RecencySnoc(uses, Use(call.key, true));
          MoveToEnd(i);
          return Ran(slot.outcome), Some(slot);
        }
        Remove(i);
      }
      RecencySnoc(uses, Use(call.key, call.current.Some?));
      if call.current.None? {
        uses := uses + [Use(call.key, false)];
        return Raised, None;
      }
      Store(Slot(call.key, call.current.value, call.storedAt));
      return Ran(call.current.value), None;
    }

    method Remove(i: nat)
      requires i < |slots| && Distinct(Keys(slots))
      modifies this`slots
      ensures slots == old(slots)[..i] + old(slots)[i + 1..]
      ensures Keys(slots) == Without(old(Keys(slots)), old(slots)[i].key)
    {
      KeysWithout(slots, i);
      slots := slots[..i] + slots[i + 1..];
    }

    method Store(slot: Slot<S, V>)
      modifies this
      ensures slots == LastN(old(slots) + [slot], maxSize)
      ensures Keys(slots) == LastN(Keys(old(slots)) + [slot.key], maxSize)
      ensures uses == old(uses) + [Use(slot.key, true)]
    {
      slots, uses := slots + [slot], uses + [Use(slot.key, true)];
      while |slots| > maxSize
        invariant LastN(slots, maxSize) == LastN(old(slots) + [slot], maxSize)
        invariant uses == old(uses) + [Use(slot.key, true)]
      {
        slots := slots[1..];
      }
    }

    method MoveToEnd(i: nat)
      requires i < |slots| && Distinct(Keys(slots))
      modifies this
      ensures slots == old(slots)[..i] + old(slots)[i + 1..] + [old(slots)[i]]
      ensures Keys(slots) == Without(old(Keys(slots)), old(slots)[i].key) + [old(slots)[i].key]
      ensures uses == old(uses) + [Use(old(slots)[i].key, true)]
    {
      var slot := slots[i];
      Remove(i);
      ghost var rest := slots;
      slots, uses := slots + [slot], uses + [Use(slot.key, true)];
      assert Keys(slots) == Keys(rest) + [slot.key];
    }
  }

  ghost predicate StoredBefore<S, V>(slot: Slot<S, V>, calls: seq<Call<S, V>>, n: nat)
    requires n <= |calls|
  {
    exists j :: 0 <= j < n && StoredBy(slot, calls[j])
  }

  ghost predicate HeldFrom<S, V>(slots: seq<Slot<S, V>>, calls: seq<Call<S, V>>, n: nat)
    requires n <= |calls|
  {
    forall slot :: slot in slots ==> StoredBefore(slot, calls, n)
  }

  // The entry that served call i was stored by an earlier call and is within the TTL.
  ghost predicate ServedFrom<S, V>(calls: seq<Call<S, V>>, i: nat, slot: Slot<S, V>)
    requires i < |calls|
  {
    slot.key == calls[i].key && calls[i].lookedUpAt - slot.storedAt <= 30.0 && StoredBefore(slot, calls, i)
  }

  // Every sequence of calls and clock readings: the answers are those of a runner without a cache, an
  // answer served from the cache is an earlier call's and within the TTL, the cache never outgrows its
  // bound, and what it holds are the keys most recently used in these calls, in order of use.
  method AnyRun<S(==, !new), V(!new)>(config: Config, maxSize: nat, calls: seq<Call<S, V>>, ghost truth: Key<S> -> Option<V>)
    returns (results: seq<Result<V>>, served: seq<Option<Slot<S, V>>>, cli: Cli<S, V>)
    requires forall i :: 0 <= i < |calls| && !Skips(config, calls[i].key.command, calls[i].key.args) ==>
               calls[i].current == truth(calls[i].key)
    ensures |results| == |served| == |calls|
    ensures forall i :: 0 <= i < |calls| ==> results[i] == Uncached(config, calls[i])
    ensures forall i :: 0 <= i < |calls| && served[i].Some? ==>
              results[i] == Ran(served[i].value.outcome) && ServedFrom(calls, i, served[i].value)
    ensures fresh(cli) && |cli.slots| <= maxSize && Suffix(Keys(cli.slots), Recency(UsesOf(config, calls)))
  {
    hide Skips, Uncached, Without, Recency, Suffix, Distinct, UseOf, StoredBy, StoredBefore, Keys, HeldFrom;
    NothingHeld(calls);
    cli := new Cli(config, maxSize);
    results, served := [], [];
    for i := 0 to |calls|
      invariant fresh(cli) && cli.config == config && cli.maxSize == maxSize && cli.Valid(truth)
      invariant cli.uses == UsesOf(config, calls[..i]) && HeldFrom(cli.slots, calls, i)
      invariant |results| == |served| == i && forall j :: 0 <= j < i ==> results[j] == Uncached(config, calls[j])
      invariant forall j :: 0 <= j < i && served[j].Some? ==>
                  results[j] == Ran(served[j].value.outcome) && ServedFrom(calls, j, served[j].value)
    {
      var r, slot := NextCall(cli, calls, i, truth);
      assert calls[..i + 1][..i] == calls[..i];
      results, served := results + [r], served + [slot];
    }
    assert calls[..|calls|] == calls;
  }

  lemma NothingHeld<S, V>(calls: seq<Call<S, V>>)
    ensures HeldFrom([], calls, 0)
  {
  }

  method NextCall<S(==, !new), V(!new)>(cli: Cli<S, V>, calls: seq<Call<S, V>>, i: nat, ghost truth: Key<S> -> Option<V>)
    returns (r: Result<V>, served: Option<Slot<S, V>>)
    requires i < |calls| && cli.Valid(truth) && HeldFrom(cli.slots, calls, i)
    requires !Skips(cli.config, calls[i].key.command, calls[i].key.args) ==> calls[i].current == truth(calls[i].key)
    modifies cli
    ensures cli.Valid(truth) && r == Uncached(cli.config, calls[i])
    ensures cli.uses == old(cli.uses) + UseOf(cli.config, calls[i]) && HeldFrom(cli.slots, calls, i + 1)
    ensures served.Some? ==> r == Ran(served.value.outcome) && ServedFrom(calls, i, served.value)
  {
    hide Skips, Uncached, Without, Recency, Suffix, Distinct, UseOf, StoredBy, StoredBefore, Keys, LastN;
    ghost var before := cli.slots;
    r, served := cli.Run(calls[i], truth);
    HeldOn(before, cli.slots, calls, i);
  }

  lemma HeldOn<S, V>(before: seq<Slot<S, V>>, after: seq<Slot<S, V>>, calls: seq<Call<S, V>>, i: nat)
    requires i < |calls| && HeldFrom(before, calls, i)
    requires forall slot :: slot in after ==> slot in before || StoredBy(slot, calls[i])
    ensures HeldFrom(after, calls, i + 1)
  {
    hide StoredBy;
    forall slot | slot in after ensures StoredBefore(slot, calls, i + 1) {
      assert slot in before ==> StoredBefore(slot, calls, i);
    }
  }
}
