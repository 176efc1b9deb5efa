/** The choice of a cipher suite by the server, from a list of its own with groups of equal preference and the
    client's list. */
module CipherChoice {
  import opened Bytes

  datatype Cipher = Cipher(id: nat, minVersion: nat, maxVersion: nat, keyExchange: nat, auth: nat)

  /** What the connection allows: a version, kinds of key exchange and kinds of authentication. */
  datatype Terms = Terms(version: nat, keyExchanges: set<nat>, auths: set<nat>) {
    predicate Allow(c: Cipher) {
      c.minVersion <= version <= c.maxVersion && c.keyExchange in keyExchanges && c.auth in auths
    }
  }

  /** A server's list. A flag is set when its cipher is not the last of its group. */
  datatype Preferences = Preferences(ciphers: seq<Cipher>, inGroup: seq<bool>) {
    predicate Valid() {
      |inGroup| == |ciphers|
    }
  }

  // What the choice should be

  ghost predicate FirstAt(list: seq<Cipher>, c: Cipher, index: nat) {
    index < |list| && list[index] == c && c !in list[..index]
  }

  /** Whether cipher i of the list with priority ends its group: every cipher does where there are no groups. */
  predicate Ends(flags: Option<seq<bool>>, i: nat)
    requires flags.Some? ==> i < |flags.value|
  {
    flags == None || !flags.value[i]
  }

  /** The group of cipher i ends before cipher j. */
  ghost predicate GroupBefore(flags: Option<seq<bool>>, i: nat, j: nat)
    requires flags.Some? ==> j <= |flags.value|
  {
    exists k: nat :: i <= k < j && Ends(flags, k)
  }

  /** Cipher i of the list with priority is shared and allowed, and its group ends at all. */
  ghost predicate Candidate(prio: seq<Cipher>, flags: Option<seq<bool>>, allow: seq<Cipher>, terms: Terms, i: nat)
    requires flags.Some? ==> |flags.value| == |prio|
  {
    i < |prio| && terms.Allow(prio[i]) && prio[i] in allow && GroupBefore(flags, i, |prio|)
  }

  /** Candidate i comes before candidate j: in an earlier group, or in the same one and not later in the other
      side's list. */
  ghost predicate Preferred(prio: seq<Cipher>, flags: Option<seq<bool>>, allow: seq<Cipher>, i: nat, j: nat)
    requires i < |prio| && j < |prio| && (flags.Some? ==> |flags.value| == |prio|)
  {
    || GroupBefore(flags, i, j)
    || (!GroupBefore(flags, j, i) &&
        exists a: nat, b: nat :: FirstAt(allow, prio[i], a) && FirstAt(allow, prio[j], b) && a <= b)
  }

  /** The best candidate, or nothing when there is none. */
  ghost predicate IsChoice(prio: seq<Cipher>, flags: Option<seq<bool>>, allow: seq<Cipher>, terms: Terms,
                           choice: Option<Cipher>)
    requires flags.Some? ==> |flags.value| == |prio|
  {
    match choice
    case None => forall i: nat :: !Candidate(prio, flags, allow, terms, i)
    case Some(c) =>
      exists i: nat ::
        && Candidate(prio, flags, allow, terms, i) && prio[i] == c
        && forall j: nat :: Candidate(prio, flags, allow, terms, j) ==> Preferred(prio, flags, allow, i, j)
  }

  lemma {:induction false} FirstExists(list: seq<Cipher>, c: Cipher) returns (index: nat)
    requires c in list
    ensures FirstAt(list, c, index)
  {
    if c in list[..|list| - 1] {
      index := FirstExists(list[..|list| - 1], c);
      assert list[..|list| - 1][..index] == list[..index];
    } else {
      index := |list| - 1;
    }
  }

  /** The matches up to the end of a group, when there was none in the groups before: the one found first in the
      other list is the choice. */
  lemma BestOfGroup(prio: seq<Cipher>, flags: Option<seq<bool>>, allow: seq<Cipher>, terms: Terms,
                    i: nat, best: nat, m: nat)
    requires (flags.Some? ==> |flags.value| == |prio|) && best <= i < |prio| && Ends(flags, i)
    requires terms.Allow(prio[best]) && FirstAt(allow, prio[best], m)
    requires forall j: nat | j <= i && terms.Allow(prio[j]) && prio[j] in allow :: !GroupBefore(flags, j, i)
    requires forall j: nat, b: nat | j <= i && terms.Allow(prio[j]) && FirstAt(allow, prio[j], b) :: m <= b
    ensures IsChoice(prio, flags, allow, terms, Some(allow[m]))
  {
    assert Candidate(prio, flags, allow, terms, best);
    forall j: nat | Candidate(prio, flags, allow, terms, j)
      ensures Preferred(prio, flags, allow, best, j)
    {
      if j > i {
        assert GroupBefore(flags, best, j);
      } else {
        var b := FirstExists(allow, prio[j]);
        assert !GroupBefore(flags, j, best);
      }
    }
  }

  // What the specification means

  lemma FirstUnique(list: seq<Cipher>, c: Cipher, a: nat, b: nat)
    requires FirstAt(list, c, a) && FirstAt(list, c, b)
    ensures a == b
  {}

  lemma PreferredBothWays(prio: seq<Cipher>, flags: Option<seq<bool>>, allow: seq<Cipher>, i: nat, j: nat)
    requires i < |prio| && j < |prio| && (flags.Some? ==> |flags.value| == |prio|)
    requires Preferred(prio, flags, allow, i, j) && Preferred(prio, flags, allow, j, i)
    ensures prio[i] == prio[j]
  {
    assert !GroupBefore(flags, i, j) && !GroupBefore(flags, j, i);
    var a: nat, b: nat :| FirstAt(allow, prio[i], a) && FirstAt(allow, prio[j], b) && a <= b;
    var c: nat, d: nat :| FirstAt(allow, prio[j], c) && FirstAt(allow, prio[i], d) && c <= d;
    FirstUnique(allow, prio[i], a, d);
    FirstUnique(allow, prio[j], b, c);
  }

  /** At most one cipher is the choice. */
  lemma ChoiceUnique(prio: seq<Cipher>, flags: Option<seq<bool>>, allow: seq<Cipher>, terms: Terms,
                     a: Option<Cipher>, b: Option<Cipher>)
    requires flags.Some? ==> |flags.value| == |prio|
    requires IsChoice(prio, flags, allow, terms, a) && IsChoice(prio, flags, allow, terms, b)
    ensures a == b
  {
    if a.Some? && b.Some? {
      var i: nat :|
        && Candidate(prio, flags, allow, terms, i) && prio[i] == a.value
        && forall j: nat :: Candidate(prio, flags, allow, terms, j) ==> Preferred(prio, flags, allow, i, j);
      var j: nat :|
        && Candidate(prio, flags, allow, terms, j) && prio[j] == b.value
        && forall k: nat :: Candidate(prio, flags, allow, terms, k) ==> Preferred(prio, flags, allow, j, k);
      hide Preferred, Candidate, IsChoice;
      PreferredBothWays(prio, flags, allow, i, j);
    }
  }

  /** Where the last cipher ends its group, or there are no groups, every shared and allowed cipher is a candidate;
      so there is a choice exactly when there is such a cipher. */
  lemma AllAreCandidates(prio: seq<Cipher>, flags: Option<seq<bool>>, allow: seq<Cipher>, terms: Terms,
                         choice: Option<Cipher>)
    requires flags.Some? ==> |flags.value| == |prio|
    requires prio != [] ==> Ends(flags, |prio| - 1)
    requires IsChoice(prio, flags, allow, terms, choice)
    ensures choice.Some? <==> exists c :: c in prio && terms.Allow(c) && c in allow
    ensures choice.Some? ==> choice.value in prio && terms.Allow(choice.value) && choice.value in allow
  {
    forall i: nat | i < |prio| && terms.Allow(prio[i]) && prio[i] in allow
      ensures Candidate(prio, flags, allow, terms, i)
    {
      assert Ends(flags, |prio| - 1);
    }
    if c :| c in prio && terms.Allow(c) && c in allow {
      var i: nat :| i < |prio| && prio[i] == c;
      assert Candidate(prio, flags, allow, terms, i);
    }
  }

  /** Without groups the choice is the first shared and allowed cipher of the list with priority. */
  lemma WithoutGroups(prio: seq<Cipher>, allow: seq<Cipher>, terms: Terms, i: nat)
    requires i < |prio| && terms.Allow(prio[i]) && prio[i] in allow
    requires forall j: nat | j < i && terms.Allow(prio[j]) :: prio[j] !in allow
    ensures IsChoice(prio, None, allow, terms, Some(prio[i]))
  {
    var m := FirstExists(allow, prio[i]);
    BestOfGroup(prio, None, allow, terms, i, i, m);
  }

  /** Where the last group is left open, which in a list built by the library it is not, its ciphers count for
      nothing: from n on no flag ends a group, and the choice is that from the list up to n. */
  lemma OpenGroupMissed(prio: seq<Cipher>, flags: seq<bool>, allow: seq<Cipher>, terms: Terms, n: nat,
                        choice: Option<Cipher>)
    requires |flags| == |prio| && n <= |prio| && (n > 0 ==> Ends(Some(flags), n - 1))
    requires forall k | n <= k < |prio| :: !Ends(Some(flags), k)
    ensures IsChoice(prio, Some(flags), allow, terms, choice) <==>
            IsChoice(prio[..n], Some(flags[..n]), allow, terms, choice)
    ensures forall i: nat | n <= i :: !Candidate(prio, Some(flags), allow, terms, i)
  {
    var all, front := Some(flags), Some(flags[..n]);
    forall i: nat
      ensures Candidate(prio, all, allow, terms, i) <==> Candidate(prio[..n], front, allow, terms, i)
    {
      SameCandidates(prio, flags, allow, terms, n, i);
    }
    forall i: nat, j: nat | i < n && j < n
      ensures Preferred(prio, all, allow, i, j) <==> Preferred(prio[..n], front, allow, i, j)
    {
      SameGroups(flags, n, i, j);
      SameGroups(flags, n, j, i);
    }
  }

  lemma SameGroups(flags: seq<bool>, n: nat, i: nat, j: nat)
    requires n <= |flags| && j <= n
    ensures GroupBefore(Some(flags), i, j) <==> GroupBefore(Some(flags[..n]), i, j)
  {
    forall k: nat | k < j
      ensures Ends(Some(flags), k) <==> Ends(Some(flags[..n]), k)
    {}
  }

  lemma SameCandidates(prio: seq<Cipher>, flags: seq<bool>, allow: seq<Cipher>, terms: Terms, n: nat, i: nat)
    requires |flags| == |prio| && n <= |prio| && (n > 0 ==> Ends(Some(flags), n - 1))
    requires forall k | n <= k < |prio| :: !Ends(Some(flags), k)
    ensures Candidate(prio, Some(flags), allow, terms, i) <==> Candidate(prio[..n], Some(flags[..n]), allow, terms, i)
    ensures i >= n ==> !Candidate(prio, Some(flags), allow, terms, i)
  {
    if i < n {
      assert GroupBefore(Some(flags), i, |prio|);
      assert Ends(Some(flags[..n]), n - 1);
    }
  }

  // What the code does

  /** sk_SSL_CIPHER_find */
  method Find(list: seq<Cipher>, c: Cipher) returns (found: bool, index: nat)
    ensures found <==> c in list
    ensures found ==> FirstAt(list, c, index)
  {
    found := false;
    index := 0;
    while index < |list|
      invariant index <= |list| && c !in list[..index]
    {
      if list[index] == c {
        return true, index;
      }
      index := index + 1;
    }
  }

  /** The loop of ssl3_choose_cipher; groupMin is -1 as long as the group holds no match. */
  method ChooseFrom(prio: seq<Cipher>, flags: Option<seq<bool>>, allow: seq<Cipher>, terms: Terms)
    returns (choice: Option<Cipher>)
    requires flags.Some? ==> |flags.value| == |prio|
    ensures IsChoice(prio, flags, allow, terms, choice)
  {
    var groupMin: int := -1;
    ghost var best: nat := 0;
    for i := 0 to |prio|
      invariant -1 <= groupMin < |allow| && (groupMin >= 0 ==> flags.Some?)
      invariant forall j: nat | j < i && terms.Allow(prio[j]) && prio[j] in allow :: !GroupBefore(flags, j, i)
      invariant groupMin == -1 ==> forall j: nat | j < i && terms.Allow(prio[j]) :: prio[j] !in allow
      invariant groupMin >= 0 ==>
                  && best < i && terms.Allow(prio[best]) && FirstAt(allow, prio[best], groupMin)
                  && forall j: nat, b: nat | j < i && terms.Allow(prio[j]) && FirstAt(allow, prio[j], b) ::
                       groupMin <= b
    {
      var c := prio[i];
      var found, index := Find(allow, c);
      if terms.version >= c.minVersion && terms.version <= c.maxVersion && c.keyExchange in terms.keyExchanges
         && c.auth in terms.auths && found
      {
        if flags.Some? && flags.value[i] {
          if groupMin == -1 || groupMin > index {
            groupMin, best := index, i;
          }
        } else {
          if groupMin != -1 && groupMin < index {
            index := groupMin;
          } else {
            best := i;
          }
          BestOfGroup(prio, flags, allow, terms, i, best, index);
          return Some(allow[index]);
        }
      }
      if flags.Some? && !flags.value[i] && groupMin != -1 {
        BestOfGroup(prio, flags, allow, terms, i, best, groupMin);
        return Some(allow[groupMin]);
      }
    }
    return None;
  }

  /** ssl3_choose_cipher: the server's list has priority, with its groups, or the client's, without any. */
  method Choose(client: seq<Cipher>, server: Preferences, serverFirst: bool, terms: Terms)
    returns (choice: Option<Cipher>)
    requires server.Valid()
    ensures if serverFirst then IsChoice(server.ciphers, Some(server.inGroup), client, terms, choice)
            else IsChoice(client, None, server.ciphers, terms, choice)
  {
    if serverFirst {
      choice := ChooseFrom(server.ciphers, Some(server.inGroup), client, terms);
    } else {
      choice := ChooseFrom(client, None, server.ciphers, terms);
    }
  }
}
