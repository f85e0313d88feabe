// ssl3_choose_cipher: server preference with equal-preference groups, or client preference.

module CipherChoice {
  import opened Wire
  import Words

  datatype SslCipher = SslCipher(id: nat, minVersion: nat, maxVersion: nat, mkey: nat, auth: nat)

  // The negotiated version and what the server's configuration can do.
  datatype Setting = Setting(version: nat, maskK: nat, maskA: nat) {
    predicate Supports(c: SslCipher) {
      && c.minVersion <= version <= c.maxVersion
      && Words.And(c.mkey, maskK) != 0
      && Words.And(c.auth, maskA) != 0
    }
  }

  // sk_SSL_CIPHER_find: the first place of c in the list, or its length.
  function IndexOf(list: seq<SslCipher>, c: SslCipher): (i: nat)
    ensures i <= |list| && (i < |list| ==> list[i] == c)
    ensures forall j :: 0 <= j < i ==> list[j] != c
    ensures i < |list| <==> c in list
  {
    if list == [] || list[0] == c then 0
    else
      var i := IndexOf(list[1..], c);
      assert forall j :: 0 < j < 1 + i ==> list[j] == list[1..][j - 1];
      1 + i
  }

  predicate Acceptable(s: Setting, allow: seq<SslCipher>, c: SslCipher) {
    s.Supports(c) && c in allow
  }

  // 1 in the same group as the next cipher, 0 at the end of a group; without flags every
  // cipher is a group of its own.
  function Flag(flags: Option<seq<nat>>, i: nat): nat
    requires flags.Some? ==> i < |flags.value| && flags.value[i] <= 1
  {
    if flags.None? then 0 else flags.value[i]
  }

  predicate FlagsFor(flags: Option<seq<nat>>, n: nat) {
    flags.Some? ==> |flags.value| == n && forall i :: 0 <= i < n ==> flags.value[i] <= 1
  }

  // Where the group of cipher i begins.
  function GroupStart(flags: Option<seq<nat>>, n: nat, i: nat): (k: nat)
    requires FlagsFor(flags, n) && i < n
    ensures k <= i
    ensures forall j :: k <= j < i ==> Flag(flags, j) == 1
    ensures k > 0 ==> Flag(flags, k - 1) == 0
  {
    if i > 0 && Flag(flags, i - 1) == 1 then GroupStart(flags, n, i - 1) else i
  }

  // The least place in allow among the acceptable ciphers prio[from..to], of which there is one.
  ghost predicate Least(s: Setting, prio: seq<SslCipher>, allow: seq<SslCipher>, from: nat, to: nat, index: nat)
    requires to <= |prio|
  {
    && (exists m :: from <= m < to && Acceptable(s, allow, prio[m]) && IndexOf(allow, prio[m]) == index)
    && (forall m :: from <= m < to && Acceptable(s, allow, prio[m]) ==> IndexOf(allow, prio[m]) >= index)
  }

  ghost predicate NoneIn(s: Setting, prio: seq<SslCipher>, allow: seq<SslCipher>, from: nat, to: nat)
    requires to <= |prio|
  {
    forall m :: from <= m < to ==> !Acceptable(s, allow, prio[m])
  }

  // c is the choice: from the first group with an acceptable cipher, which ends at e, the one
  // the other side ranks highest.
  ghost predicate ChosenAt(s: Setting, prio: seq<SslCipher>, allow: seq<SslCipher>, flags: Option<seq<nat>>, e: nat,
                           index: nat)
    requires FlagsFor(flags, |prio|) && e < |prio|
  {
    && Flag(flags, e) == 0
    && NoneIn(s, prio, allow, 0, GroupStart(flags, |prio|, e))
    && Least(s, prio, allow, GroupStart(flags, |prio|, e), e + 1, index)
  }

  // Just behind the last group that ends, among the first n ciphers.
  function LastEnd(flags: Option<seq<nat>>, total: nat, n: nat): (e: nat)
    requires FlagsFor(flags, total) && n <= total
    ensures e <= n && (e > 0 ==> Flag(flags, e - 1) == 0)
    ensures forall j :: e <= j < n ==> Flag(flags, j) == 1
  {
    if n == 0 || Flag(flags, n - 1) == 0 then n else LastEnd(flags, total, n - 1)
  }

  // The loop over the preferring side's list. On success e is where the group ends and index
  // the place in allow.
  method Choose(s: Setting, prio: seq<SslCipher>, allow: seq<SslCipher>, flags: Option<seq<nat>>)
    returns (r: Option<SslCipher>, ghost e: nat, ghost index: nat)
    requires FlagsFor(flags, |prio|)
    ensures r.Some? ==>
              e < |prio| && index < |allow| && ChosenAt(s, prio, allow, flags, e, index)
              && r.value == allow[index]
    // without a result, no group that ends has an acceptable cipher
    ensures r.None? <==> NoneIn(s, prio, allow, 0, LastEnd(flags, |prio|, |prio|))
  {
    var groupMin: Option<nat> := None;
    var i: nat := 0;
    ghost var start: nat := 0;
    e, index := 0, 0;
    while i < |prio|
      invariant start <= i <= |prio| && NoneIn(s, prio, allow, 0, start)
      invariant i < |prio| ==> GroupStart(flags, |prio|, i) == start
      invariant forall j :: start <= j < i ==> Flag(flags, j) == 1
      invariant groupMin.Some? ==> groupMin.value < |allow| && flags.Some?
      invariant BestSoFar(s, prio, allow, start, i, groupMin)
    {
      var chosen;
      chosen, groupMin := Consider(s, prio, allow, flags, i, groupMin, start);
      if chosen.Some? {
        e, index := i, chosen.value;
        return Some(allow[chosen.value]), e, index;
      }
      if Flag(flags, i) == 0 {
        start := i + 1;
      }
      i := i + 1;
    }
    r := None;
  }

  // One round: the place in allow of the choice, if the group ends with one, or the new minimum.
  method Consider(s: Setting, prio: seq<SslCipher>, allow: seq<SslCipher>, flags: Option<seq<nat>>, i: nat,
                  groupMin: Option<nat>, ghost start: nat)
    returns (chosen: Option<nat>, groupMin': Option<nat>)
    requires FlagsFor(flags, |prio|) && start <= i < |prio| && (groupMin.Some? ==> groupMin.value < |allow|)
    requires BestSoFar(s, prio, allow, start, i, groupMin) && (flags.None? ==> groupMin.None?)
    ensures groupMin'.Some? ==> groupMin'.value < |allow|
    ensures chosen.Some? ==> chosen.value < |allow| && Flag(flags, i) == 0
    ensures chosen.Some? ==> Least(s, prio, allow, start, i + 1, chosen.value)
    ensures chosen.None? ==> BestSoFar(s, prio, allow, start, i + 1, groupMin')
    ensures chosen.None? && Flag(flags, i) == 0 ==> groupMin'.None?
  {
    chosen, groupMin' := None, groupMin;
    var c := prio[i];
    if s.Supports(c) && c in allow {
      var cipherIndex := IndexOf(allow, c);
      AnotherAcceptable(s, prio, allow, start, i, groupMin);
      if Flag(flags, i) == 1 {
        if groupMin.None? || groupMin.value > cipherIndex {
          groupMin' := Some(cipherIndex);
        }
      } else {
        if groupMin.Some? && groupMin.value < cipherIndex {
          cipherIndex := groupMin.value;
        }
        return Some(cipherIndex), groupMin;
      }
    } else {
      NotAcceptable(s, prio, allow, start, i, groupMin);
    }
    if flags.Some? && Flag(flags, i) == 0 && groupMin'.Some? {
      chosen := groupMin';
    }
  }

  // What group_min says about prio[from..to].
  ghost predicate BestSoFar(s: Setting, prio: seq<SslCipher>, allow: seq<SslCipher>, from: nat, to: nat,
                            groupMin: Option<nat>)
    requires to <= |prio|
  {
    if groupMin.Some? then Least(s, prio, allow, from, to, groupMin.value) else NoneIn(s, prio, allow, from, to)
  }

  lemma {:induction false} AnotherAcceptable(s: Setting, prio: seq<SslCipher>, allow: seq<SslCipher>, from: nat,
                                             to: nat, groupMin: Option<nat>)
    requires from <= to < |prio| && BestSoFar(s, prio, allow, from, to, groupMin) && Acceptable(s, allow, prio[to])
    ensures var i := IndexOf(allow, prio[to]);
            BestSoFar(s, prio, allow, from, to + 1,
                      Some(if groupMin.None? || groupMin.value > i then i else groupMin.value))
  {
  }

  lemma {:induction false} NotAcceptable(s: Setting, prio: seq<SslCipher>, allow: seq<SslCipher>, from: nat, to: nat,
                                         groupMin: Option<nat>)
    requires from <= to < |prio| && BestSoFar(s, prio, allow, from, to, groupMin) && !Acceptable(s, allow, prio[to])
    ensures BestSoFar(s, prio, allow, from, to + 1, groupMin)
  {
  }

  lemma {:induction false} LeastExists(s: Setting, prio: seq<SslCipher>, allow: seq<SslCipher>, from: nat, to: nat)
    returns (index: nat)
    requires from <= to <= |prio| && !NoneIn(s, prio, allow, from, to)
    ensures Least(s, prio, allow, from, to, index)
  {
    var c := prio[to - 1];
    if NoneIn(s, prio, allow, from, to - 1) {
      index := IndexOf(allow, c);
    } else {
      index := LeastExists(s, prio, allow, from, to - 1);
      if Acceptable(s, allow, c) && IndexOf(allow, c) < index {
        index := IndexOf(allow, c);
      }
    }
  }

  // The end of the first group that has an acceptable cipher, of those that end.
  lemma {:induction false} FirstGroup(s: Setting, prio: seq<SslCipher>, allow: seq<SslCipher>,
                                      flags: Option<seq<nat>>, n: nat)
    returns (e: nat)
    requires FlagsFor(flags, |prio|) && n <= |prio| && !NoneIn(s, prio, allow, 0, LastEnd(flags, |prio|, n))
    ensures e < n && Flag(flags, e) == 0
    ensures NoneIn(s, prio, allow, 0, GroupStart(flags, |prio|, e))
    ensures !NoneIn(s, prio, allow, GroupStart(flags, |prio|, e), e + 1)
    decreases n
  {
    var last := LastEnd(flags, |prio|, n);
    var start := GroupStart(flags, |prio|, last - 1);
    if NoneIn(s, prio, allow, 0, start) {
      e := last - 1;
    } else {
      assert LastEnd(flags, |prio|, start) == start;
      e := FirstGroup(s, prio, allow, flags, start);
    }
  }

  // There is no choice exactly when every acceptable cipher stands behind the last group that ends:
  // in a last group whose last flag is 1, acceptable ciphers that stand there alone are lost.
  lemma {:induction false} OpenGroupIsLost(s: Setting, prio: seq<SslCipher>, allow: seq<SslCipher>,
                                           flags: Option<seq<nat>>)
    requires FlagsFor(flags, |prio|)
    ensures (forall e: nat, index: nat :: e < |prio| ==> !ChosenAt(s, prio, allow, flags, e, index))
       <==> (forall m :: 0 <= m < |prio| && Acceptable(s, allow, prio[m]) ==> LastEnd(flags, |prio|, |prio|) <= m)
  {
    if !NoneIn(s, prio, allow, 0, LastEnd(flags, |prio|, |prio|)) {
      var e := FirstGroup(s, prio, allow, flags, |prio|);
      var index := LeastExists(s, prio, allow, GroupStart(flags, |prio|, e), e + 1);
      assert ChosenAt(s, prio, allow, flags, e, index);
    }
  }

  // With the last flag 0 a choice is missing only when nothing is acceptable.
  lemma {:induction false} LastGroupEnds(s: Setting, prio: seq<SslCipher>, allow: seq<SslCipher>,
                                         flags: Option<seq<nat>>)
    requires FlagsFor(flags, |prio|) && (prio != [] ==> Flag(flags, |prio| - 1) == 0)
    ensures (forall e: nat, index: nat :: e < |prio| ==> !ChosenAt(s, prio, allow, flags, e, index))
       <==> NoneIn(s, prio, allow, 0, |prio|)
  {
    OpenGroupIsLost(s, prio, allow, flags);
  }

  // ssl3_choose_cipher, after the masks are known; no client list is a parse failure.
  method ChooseCipher(s: Setting, client: Option<seq<SslCipher>>, server: seq<SslCipher>, inGroup: seq<nat>,
                      serverPreference: bool)
    returns (r: Option<SslCipher>, ghost place: nat, ghost index: nat)
    requires FlagsFor(Some(inGroup), |server|) && (server != [] ==> inGroup[|server| - 1] == 0)
    ensures client.None? ==> r.None?
    ensures client.Some? ==> (r.None? <==> forall c :: c in client.value && c in server ==> !s.Supports(c))
    ensures r.Some? ==> r.value in client.value && r.value in server && s.Supports(r.value)
    ensures r.Some? && serverPreference ==> place < |server| && index < |client.value| && r.value == client.value[index]
    ensures r.Some? && serverPreference ==> ChosenAt(s, server, client.value, Some(inGroup), place, index)
    // client preference: the first acceptable one in the client's order
    ensures r.Some? && !serverPreference ==> place < |client.value| && r.value == client.value[place]
    ensures r.Some? && !serverPreference ==> NoneIn(s, client.value, server, 0, place)
  {
    place, index := 0, 0;
    if client.None? {
      return None, place, index;
    }
    if serverPreference {
      r, place, index := Choose(s, server, client.value, Some(inGroup));
    } else {
      r, place, index := Choose(s, client.value, server, None);
    }
  }
}
