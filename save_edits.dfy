/** The edits `modify_save` applies to a decoded player record: setting the
    currencies (`_set_money`), unlocking the Creature Slaughterdome
    (`_unlock_features`) and repairing overflowed challenge counters
    (`_fix_challenge_overflow`), plus the conversion between the black-market
    upgrade list and its named dictionary (`unwrap_black_market`,
    `wrap_black_market`). The protobuf encoding of the player record and of the
    challenge blob is outside the model: the record's fields enter already
    decoded. */
module SaveEdits {
  import opened Results
  import opened ByteStrings

  // ---------------------------------------------------------------------
  // Edit options

  /** The options the edits read from the parsed command line. `unlock` is the
      dictionary `DictAction` builds (None when the option was not given), and
      `challengeMax` maps each known challenge id to its `get_max()`. */
  datatype EditOptions = EditOptions(
    money: Option<int>,
    eridium: Option<int>,
    seraph: Option<int>,
    torgue: Option<int>,
    unlock: Option<map<string, bool>>,
    fixChallengeOverflow: bool,
    challengeMax: map<int, int>)

  /** One entry of the decoded challenge list: its id and its running total. */
  datatype SaveChallenge = SaveChallenge(id: int, totalValue: int)

  // ---------------------------------------------------------------------
  // Currencies

  /** The value, if any, the options write into position `k` of the currency
      list: money at 0, Eridium at 1, Seraph crystals at 2, Torgue tokens at 4. */
  function MoneySlot(k: nat, money: Option<int>, eridium: Option<int>,
                     seraph: Option<int>, torgue: Option<int>): Option<int>
  {
    if k == 0 then money
    else if k == 1 then eridium
    else if k == 2 then seraph
    else if k == 4 then torgue
    else None
  }

  /** `values[k] = v` when `v` is given; a position past the end raises. */
  function SetSlot(values: seq<int>, k: nat, v: Option<int>): (r: Result<seq<int>>)
  {
    if v.None? then Success(values)
    else if k < |values| then Success(values[k := v.value])
    else Failure(IndexOutOfRange)
  }

  /** The currency list `_set_money` leaves behind, or the error it raises.
      Each given currency lands verbatim in its own position, every other
      position (position 3 among them) keeps its value, and the list keeps its
      length; the only error is IndexError. */
  function MoneyValues(values: seq<int>, money: Option<int>, eridium: Option<int>,
                       seraph: Option<int>, torgue: Option<int>): (r: Result<seq<int>>)
    ensures r.Success? ==> |r.value| == |values|
    ensures r.Success? ==> forall k :: 0 <= k < |values| ==>
      r.value[k] == (var s := MoneySlot(k, money, eridium, seraph, torgue); if s.Some? then s.value else values[k])
    ensures r.Failure? ==> r.error == IndexOutOfRange
  {
    if money.None? && eridium.None? && seraph.None? && torgue.None? then Success(values)
    else
      var v0 :- SetSlot(values, 0, money);
      var v1 :- SetSlot(v0, 1, eridium);
      var v2 :- SetSlot(v1, 2, seraph);
      SetSlot(v2, 4, torgue)
  }

  /** `_set_money` raises IndexError exactly when a given currency has no
      position in the list. */
  lemma MoneyFails(values: seq<int>, money: Option<int>, eridium: Option<int>,
                   seraph: Option<int>, torgue: Option<int>)
    ensures MoneyValues(values, money, eridium, seraph, torgue).Failure? <==>
      exists k :: k in {0, 1, 2, 4} && MoneySlot(k, money, eridium, seraph, torgue).Some? && |values| <= k
  {
    var r := MoneyValues(values, money, eridium, seraph, torgue);
    if r.Failure? {
      if money.Some? && |values| <= 0 {
        assert MoneySlot(0, money, eridium, seraph, torgue).Some?;
      } else if eridium.Some? && |values| <= 1 {
        assert MoneySlot(1, money, eridium, seraph, torgue).Some?;
      } else if seraph.Some? && |values| <= 2 {
        assert MoneySlot(2, money, eridium, seraph, torgue).Some?;
      } else {
        assert MoneySlot(4, money, eridium, seraph, torgue).Some?;
      }
    }
  }

  /** Setting the same currencies twice is setting them once. */
  lemma MoneyIdempotent(values: seq<int>, money: Option<int>, eridium: Option<int>,
                        seraph: Option<int>, torgue: Option<int>)
    requires MoneyValues(values, money, eridium, seraph, torgue).Success?
    ensures var r := MoneyValues(values, money, eridium, seraph, torgue).value;
      MoneyValues(r, money, eridium, seraph, torgue) == Success(r)
  {
    var r := MoneyValues(values, money, eridium, seraph, torgue).value;
    var r2 := MoneyValues(r, money, eridium, seraph, torgue).value;
    assert r2 == r;
  }

  // ---------------------------------------------------------------------
  // The Slaughterdome flag

  /** The payload of the first entry of a byte-string field, `b''` when the
      field is absent. */
  function PayloadOf(field: Option<seq<Byte>>): seq<Byte>
  {
    if field.Some? then field.value else []
  }

  /** `b += b"\x01"` unless the byte 1 is already there. The flag is then
      present, the old bytes are a prefix, at most one byte is added, and
      bytes that hold the flag are left alone, so flagging is idempotent. */
  function Flagged(b: seq<Byte>): (r: seq<Byte>)
    ensures 1 in r
    ensures b <= r && |r| <= |b| + 1
    ensures 1 in b <==> r == b
  {
    if 1 in b then b else b + [1]
  }

  /** `_unlock_features` run a second time leaves both fields as the first run
      left them: the payload it reads back already holds the flag. */
  lemma FlaggedIdempotent(field: Option<seq<Byte>>)
    ensures Flagged(PayloadOf(Some(Flagged(PayloadOf(field))))) == Flagged(PayloadOf(field))
  {
  }

  /** `_unlock_features` acts only when the unlock option names the
      Slaughterdome (an absent or empty option does nothing). */
  predicate UnlocksSlaughterdome(unlock: Option<map<string, bool>>)
  {
    unlock.Some? && |unlock.value| > 0 && "slaughterdome" in unlock.value
  }

  // ---------------------------------------------------------------------
  // Challenge overflow

  /** A running total at or above this value is taken to have overflowed. */
  const OverflowThreshold: int := 2000000000

  /** The repair of one challenge: a known challenge whose total reached the
      threshold is reset to one more than its maximum. */
  function Repaired(c: SaveChallenge, challengeMax: map<int, int>): (r: SaveChallenge)
    ensures r.id == c.id
  {
    if c.id in challengeMax && c.totalValue >= OverflowThreshold
    then c.(totalValue := challengeMax[c.id] + 1)
    else c
  }

  /** The challenge list after the repair loop. */
  function RepairedAll(cs: seq<SaveChallenge>, challengeMax: map<int, int>): (r: seq<SaveChallenge>)
    ensures |r| == |cs|
  {
    seq(|cs|, i requires 0 <= i < |cs| => Repaired(cs[i], challengeMax))
  }

  /** Only known challenges at or above the threshold change, each to one
      more than its maximum; every other entry is kept as it was. */
  lemma RepairTargeted(cs: seq<SaveChallenge>, challengeMax: map<int, int>, i: nat)
    requires i < |cs|
    ensures var r := RepairedAll(cs, challengeMax);
      r[i].id == cs[i].id &&
      (if cs[i].id in challengeMax && cs[i].totalValue >= OverflowThreshold
       then r[i].totalValue == challengeMax[cs[i].id] + 1
       else r[i] == cs[i])
  {
  }

  /** When every known maximum lies below the threshold, no known challenge is
      left at or above it after the repair. */
  lemma RepairSettles(cs: seq<SaveChallenge>, challengeMax: map<int, int>)
    requires forall id :: id in challengeMax ==> challengeMax[id] + 1 < OverflowThreshold
    ensures forall i :: 0 <= i < |cs| && cs[i].id in challengeMax ==>
      RepairedAll(cs, challengeMax)[i].totalValue < OverflowThreshold
  {
  }

  /** Repairing twice is repairing once, whatever the maxima: a reset entry is
      set to the same `maximum + 1` again, and every other entry is left alone
      both times. */
  lemma RepairIdempotent(cs: seq<SaveChallenge>, challengeMax: map<int, int>)
    ensures RepairedAll(RepairedAll(cs, challengeMax), challengeMax) == RepairedAll(cs, challengeMax)
  {
    var r := RepairedAll(cs, challengeMax);
    forall i | 0 <= i < |cs|
      ensures Repaired(r[i], challengeMax) == r[i]
    {
    }
  }

  // ---------------------------------------------------------------------
  // The decoded player record

  /** The fields of the player record the edits touch: the decoded currency
      list (field 6), the first payload of fields 23 (unlocked features) and
      24 (their notifications) when present, and the decoded challenge list
      (field 15). */
  class Player {
    var currency: seq<int>
    var unlocked: Option<seq<Byte>>
    var notifications: Option<seq<Byte>>
    var challenges: seq<SaveChallenge>

    constructor (currency: seq<int>, unlocked: Option<seq<Byte>>,
                 notifications: Option<seq<Byte>>, challenges: seq<SaveChallenge>)
      ensures this.currency == currency && this.unlocked == unlocked
      ensures this.notifications == notifications && this.challenges == challenges
    {
      this.currency := currency;
      this.unlocked := unlocked;
      this.notifications := notifications;
      this.challenges := challenges;
    }

    /** `_set_money`: on success the currency list is the one `MoneyValues`
        describes; when a position is missing the IndexError leaves the
        record untouched. */
    method SetMoney(opts: EditOptions) returns (outcome: Outcome)
      modifies this
      ensures match MoneyValues(old(currency), opts.money, opts.eridium, opts.seraph, opts.torgue)
        case Success(v) => outcome == Pass && currency == v
        case Failure(e) => outcome == Fail(e) && currency == old(currency)
      ensures unlocked == old(unlocked) && notifications == old(notifications)
      ensures challenges == old(challenges)
    {
      if opts.money.None? && opts.eridium.None? && opts.seraph.None? && opts.torgue.None? {
        return Pass;
      }
      var values := currency;
      if opts.money.Some? {
        if |values| <= 0 { return Fail(IndexOutOfRange); }
        values := values[0 := opts.money.value];
      }
      if opts.eridium.Some? {
        if |values| <= 1 { return Fail(IndexOutOfRange); }
        values := values[1 := opts.eridium.value];
      }
      if opts.seraph.Some? {
        if |values| <= 2 { return Fail(IndexOutOfRange); }
        values := values[2 := opts.seraph.value];
      }
      if opts.torgue.Some? {
        if |values| <= 4 { return Fail(IndexOutOfRange); }
        values := values[4 := opts.torgue.value];
      }
      currency := values;
      outcome := Pass;
    }

    /** `_unlock_features`: with the Slaughterdome requested, both fields end
        up present and holding the byte 1; otherwise nothing changes. */
    method UnlockFeatures(opts: EditOptions)
      modifies this
      ensures if UnlocksSlaughterdome(opts.unlock)
        then unlocked == Some(Flagged(PayloadOf(old(unlocked)))) &&
             notifications == Some(Flagged(PayloadOf(old(notifications))))
        else unlocked == old(unlocked) && notifications == old(notifications)
      ensures currency == old(currency) && challenges == old(challenges)
    {
      if opts.unlock.None? || |opts.unlock.value| == 0 {
        return;
      }
      if "slaughterdome" !in opts.unlock.value {
        return;
      }
      var u: seq<Byte> := [];
      var n: seq<Byte> := [];
      if unlocked.Some? {
        u := unlocked.value;
      }
      if notifications.Some? {
        n := notifications.value;
      }
      if 1 !in u {
        u := u + [1];
      }
      if 1 !in n {
        n := n + [1];
      }
      unlocked := Some(u);
      notifications := Some(n);
    }

    /** `_fix_challenge_overflow`: when enabled, each challenge is repaired
        in place, in list order. */
    method FixChallengeOverflow(opts: EditOptions)
      modifies this
      ensures challenges == if opts.fixChallengeOverflow
        then RepairedAll(old(challenges), opts.challengeMax) else old(challenges)
      ensures currency == old(currency)
      ensures unlocked == old(unlocked) && notifications == old(notifications)
    {
      if !opts.fixChallengeOverflow {
        return;
      }
      var i := 0;
      while i < |challenges|
        invariant 0 <= i <= |challenges| == |old(challenges)|
        invariant forall k :: 0 <= k < i ==> challenges[k] == Repaired(old(challenges)[k], opts.challengeMax)
        invariant forall k :: i <= k < |challenges| ==> challenges[k] == old(challenges)[k]
        invariant currency == old(currency)
        invariant unlocked == old(unlocked) && notifications == old(notifications)
      {
        var c := challenges[i];
        if c.id in opts.challengeMax {
          if c.totalValue >= OverflowThreshold {
            challenges := challenges[i := c.(totalValue := opts.challengeMax[c.id] + 1)];
          }
        }
        i := i + 1;
      }
      assert challenges == RepairedAll(old(challenges), opts.challengeMax);
    }
  }

  // ---------------------------------------------------------------------
  // The black market

  function Min(a: nat, b: nat): nat
  {
    if a <= b then a else b
  }

  /** No string occurs twice. */
  predicate Distinct(s: seq<string>)
  {
    forall i, j :: 0 <= i < j < |s| ==> s[i] != s[j]
  }

  /** The dictionary built from the first `n` pairs, one pair after the
      other, so a later pair for the same key overrides an earlier one. */
  function ZipPrefix(keys: seq<string>, sdu: seq<int>, n: nat): map<string, int>
    requires n <= |keys| && n <= |sdu|
  {
    if n == 0 then map[] else ZipPrefix(keys, sdu, n - 1)[keys[n - 1] := sdu[n - 1]]
  }

  /** `dict(zip(keys, sdu_list))`: pairs are taken up to the shorter of the
      two lists. */
  function UnwrapBlackMarket(keys: seq<string>, sdu: seq<int>): map<string, int>
  {
    ZipPrefix(keys, sdu, Min(|keys|, |sdu|))
  }

  /** The first `n` pairs name exactly the first `n` keys; with distinct keys
      there are `n` entries and each key holds the value at its position. */
  lemma ZipPrefixShape(keys: seq<string>, sdu: seq<int>, n: nat)
    requires n <= |keys| && n <= |sdu|
    ensures forall k :: k in ZipPrefix(keys, sdu, n) <==> k in keys[..n]
    ensures Distinct(keys) ==> |ZipPrefix(keys, sdu, n)| == n
    ensures Distinct(keys) ==> forall i :: 0 <= i < n ==> ZipPrefix(keys, sdu, n)[keys[i]] == sdu[i]
  {
    ZipPrefixKeys(keys, sdu, n);
    if Distinct(keys) {
      ZipPrefixSize(keys, sdu, n);
      ZipPrefixValues(keys, sdu, n);
    }
  }

  /** The keys of the first n pairs are the first n keys. */
  lemma {:induction false} ZipPrefixKeys(keys: seq<string>, sdu: seq<int>, n: nat)
    requires n <= |keys| && n <= |sdu|
    ensures forall k :: k in ZipPrefix(keys, sdu, n) <==> k in keys[..n]
  {
    if n > 0 {
      ZipPrefixKeys(keys, sdu, n - 1);
      assert keys[..n] == keys[..n - 1] + [keys[n - 1]];
    }
  }

  /** With distinct keys the first n pairs make a map of n entries. */
  lemma {:induction false} ZipPrefixSize(keys: seq<string>, sdu: seq<int>, n: nat)
    requires n <= |keys| && n <= |sdu| && Distinct(keys)
    ensures |ZipPrefix(keys, sdu, n)| == n
  {
    if n > 0 {
      ZipPrefixKeys(keys, sdu, n - 1);
      ZipPrefixSize(keys, sdu, n - 1);
      assert keys[n - 1] !in keys[..n - 1];
    }
  }

  /** With distinct keys each of the first n keys maps to its own value. */
  lemma {:induction false} ZipPrefixValues(keys: seq<string>, sdu: seq<int>, n: nat)
    requires n <= |keys| && n <= |sdu| && Distinct(keys)
    ensures forall i :: 0 <= i < n ==> keys[i] in ZipPrefix(keys, sdu, n) && ZipPrefix(keys, sdu, n)[keys[i]] == sdu[i]
  {
    if n > 0 {
      ZipPrefixKeys(keys, sdu, n - 1);
      ZipPrefixValues(keys, sdu, n - 1);
      assert keys[n - 1] !in keys[..n - 1];
    }
  }

  /** Unwrapping names the first keys, as many as there are values, each with
      its own value when the key table has no repeats. */
  lemma UnwrapBlackMarketShape(keys: seq<string>, sdu: seq<int>)
    ensures forall k :: k in UnwrapBlackMarket(keys, sdu) <==> k in keys[..Min(|keys|, |sdu|)]
    ensures Distinct(keys) ==> |UnwrapBlackMarket(keys, sdu)| == Min(|keys|, |sdu|)
    ensures Distinct(keys) ==> forall i :: 0 <= i < Min(|keys|, |sdu|) ==>
      UnwrapBlackMarket(keys, sdu)[keys[i]] == sdu[i]
  {
    ZipPrefixShape(keys, sdu, Min(|keys|, |sdu|));
  }

  /** `[value[k] for k in keys[:len(value)]]`: one entry per key of the first
      `len(value)` names, KeyError when one of them is missing. */
  function WrapBlackMarket(keys: seq<string>, value: map<string, int>): (r: Result<seq<int>>)
    ensures r.Success? <==> forall i :: 0 <= i < Min(|keys|, |value|) ==> keys[i] in value
    ensures r.Failure? ==> r.error == MissingKey
    ensures r.Success? ==> |r.value| == Min(|keys|, |value|)
    ensures r.Success? ==> forall i :: 0 <= i < |r.value| ==> r.value[i] == value[keys[i]]
  {
    var names := keys[..Min(|keys|, |value|)];
    if forall i :: 0 <= i < |names| ==> names[i] in value
    then Success(seq(|names|, i requires 0 <= i < |names| => value[names[i]]))
    else Failure(MissingKey)
  }

  /** A list no longer than the key table survives the trip through the
      dictionary. */
  lemma BlackMarketListRoundTrip(keys: seq<string>, sdu: seq<int>)
    requires Distinct(keys) && |sdu| <= |keys|
    ensures WrapBlackMarket(keys, UnwrapBlackMarket(keys, sdu)) == Success(sdu)
  {
    UnwrapBlackMarketShape(keys, sdu);
    var m := UnwrapBlackMarket(keys, sdu);
    assert Min(|keys|, |sdu|) == |sdu| == |m|;
    assert forall i :: 0 <= i < |sdu| ==> keys[..|sdu|][i] == keys[i];
    var r := WrapBlackMarket(keys, m);
    assert r.Success?;
    assert r.value == sdu;
  }

  /** A dictionary that the list form can hold (no more entries than keys, and
      the first `len(value)` keys all present) survives the trip through the
      list. */
  lemma BlackMarketMapRoundTrip(keys: seq<string>, value: map<string, int>)
    requires Distinct(keys) && |value| <= |keys|
    requires WrapBlackMarket(keys, value).Success?
    ensures UnwrapBlackMarket(keys, WrapBlackMarket(keys, value).value) == value
  {
    var sdu := WrapBlackMarket(keys, value).value;
    UnwrapBlackMarketShape(keys, sdu);
    var m := UnwrapBlackMarket(keys, sdu);
    var n := |value|;
    assert |sdu| == n;
    assert m.Keys <= value.Keys by {
      forall k | k in m ensures k in value {
        var i :| 0 <= i < n && keys[..n][i] == k;
      }
    }
    SameSizeSubset(m.Keys, value.Keys);
    forall k | k in m ensures m[k] == value[k] {
      var i :| 0 <= i < n && keys[..n][i] == k;
    }
  }

  /** A subset is no larger than its superset. */
  lemma {:induction false} SubsetSize<T>(a: set<T>, b: set<T>)
    requires a <= b
    ensures |a| <= |b|
    decreases |a|
  {
    if a != {} {
      var y :| y in a;
      SubsetSize(a - {y}, b - {y});
    }
  }

  /** A subset of the same size is the whole set. */
  lemma SameSizeSubset<T>(a: set<T>, b: set<T>)
    requires a <= b && |a| == |b|
    ensures a == b
  {
    if a != b {
      var x :| x in b && x !in a;
      SubsetSize(a, b - {x});
    }
  }
}
