/** A message with a good signature for which dkim_eom does not return DKIM_STAT_OK. */
module VerdictExample {
  import opened Text
  import opened Base64
  import opened BodySpec
  import opened Verdict

  /** Any library that leaves the processing of signatures to the end of the message. */
  const DELAYING := Lib((alg: Alg, text: string) => [],
                        (alg: Alg, digest: seq<Octet>, b: string, key: string) => true,
                        (mode: Mode, length: int, chunks: seq<string>) => "",
                        (t: Tags) => false,
                        true, false, false, false, false)

  const CANONS := [CanonState(true, Simple, Sha256, -1, true, ""), CanonState(false, Simple, Sha256, -1, true, ""),
                   CanonState(true, Simple, Sha256, -1, true, "")]

  function TagsOf(domain: string, identity: Option<string>): (t: Tags) {
    Tags(domain, "s", identity, Encode([]), "", Sha256, Simple, Simple, -1)
  }

  /** Not run so far. */
  function Waiting(t: Tags): (s: SigInfo) {
    SigInfo(ErrUnknown, Untested, false, false, false, false, false, Some(t), 0, 1, None, None)
  }

  /** A key with t=s, and one without. */
  const NOSUBDOMAIN := Answer(StatOk, StatOk, Some(KeyRecord(true, true, true, Some(true), Some("k"), false, true)),
                              true, true, Some("k"), true)
  const PLAIN := Answer(StatOk, StatOk, Some(KeyRecord(true, true, true, Some(true), Some("k"), false, false)),
                        true, true, Some("k"), true)

  const SIGS := [Waiting(TagsOf("d", Some("@x.d"))), Waiting(TagsOf("e", None))]
  const IGNORING := [SIGS[0].(ignored := true), SIGS[1]]

  /** What becomes of the first signature when it is run. */
  lemma FirstFails(answers: nat -> Answer)
    requires answers(0) == NOSUBDOMAIN
    ensures SigsOk(DELAYING, CANONS, true, SIGS) && BodiesDone(CANONS, true) && !Passing(SIGS[0]) && !Passing(SIGS[1])
    ensures var s := RanSig(DELAYING, CANONS, SIGS, answers, 0); Passing(s) && s.error == ErrSubdomain
  {
    hide Encode, Fold, AfterAt;
    var s := SIGS[0];
    assert !SameKey(s, SIGS[1]);
    assert SharedFrom(SIGS, 0, 1) == 2 && Other(SIGS, 0) == None;
    var got := KeyFrom(DELAYING, s, None, NOSUBDOMAIN);
    assert got.r == StatOk && got.s == s.(key := Some("k"), record := NOSUBDOMAIN.record, nosubdomain := true);
    var k := HeadersOf(DELAYING, CANONS, SIGS, 0, NOSUBDOMAIN);
    assert k == Checkup(StatOk, got.s.(processed := true, passed := true), false);
    Subdomain();
    assert WrongSubdomain(k.s);
    RanNone(DELAYING, CANONS, SIGS, answers);
    RanOne(DELAYING, CANONS, SIGS, answers, 0);
  }

  lemma Subdomain()
    ensures Fold(AfterAt("@x.d")) != Fold("d")
  {
    assert TokenLength("@x.d", '@') == 0 && AfterAt("@x.d") == "x.d";
    assert |Fold("x.d")| == 3;
  }

  /** What becomes of the second, whatever has become of the first. */
  lemma SecondPasses(before: seq<SigInfo>)
    requires SigsOk(DELAYING, CANONS, true, before) && |before| == 2 && before[1] == SIGS[1]
    requires before[0].tags == SIGS[0].tags
    ensures var s := Processed(DELAYING, CANONS, true, before, 1, PLAIN).s; Passing(s) && s.error == ErrOk
  {
    hide Encode, Fold, AfterAt, SigsOk;
    var s := before[1];
    assert !SameKey(s, before[0]);
    assert SharedFrom(before, 1, 2) == 2 && SharedFrom(before, 1, 1) == 2 && Other(before, 1) == None;
    var got := KeyFrom(DELAYING, s, None, PLAIN);
    assert got.r == StatOk && got.s == s.(key := Some("k"), record := PLAIN.record);
    var k := HeadersOf(DELAYING, CANONS, before, 1, PLAIN);
    assert k == Checkup(StatOk, got.s.(processed := true, passed := true), false);
  }

  lemma SecondInTurn(sigs: seq<SigInfo>, answers: nat -> Answer)
    requires sigs == SIGS || sigs == IGNORING
    requires answers(0) == NOSUBDOMAIN && answers(1) == PLAIN
    ensures SigsOk(DELAYING, CANONS, true, sigs) && BodiesDone(CANONS, true)
    ensures GoodInTurn(DELAYING, CANONS, sigs, answers, 1) && !Passing(sigs[0]) && !Passing(sigs[1])
  {
    hide Encode, Fold, AfterAt, Processed, Ran;
    assert SigsOk(DELAYING, CANONS, true, sigs);
    RanNone(DELAYING, CANONS, sigs, answers);
    RanOne(DELAYING, CANONS, sigs, answers, 0);
    RanOne(DELAYING, CANONS, sigs, answers, 1);
    var before := Ran(DELAYING, CANONS, sigs, answers, 1);
    ProcessedKeeps(DELAYING, CANONS, true, sigs, 0, answers(0));
    assert before[0].tags == SIGS[0].tags;
    SecondPasses(before);
  }

  /** Two signatures, none of them run before the end of the message. The first passes, but its key has t=s and its i= is
      in a subdomain. It decides, and the second, which is good, does not count. If the first is ignored the second
      does. */
  lemma SecondIsGood(answers: nat -> Answer)
    requires answers(0) == NOSUBDOMAIN && answers(1) == PLAIN
    ensures SigsOk(DELAYING, CANONS, true, SIGS) && BodiesDone(CANONS, true)
    ensures FirstPassing(SIGS) == |SIGS| && GoodInTurn(DELAYING, CANONS, SIGS, answers, 1)
    ensures !Accepts(DELAYING, CANONS, SIGS, answers)
    ensures SigsOk(DELAYING, CANONS, true, IGNORING) && Accepts(DELAYING, CANONS, IGNORING, answers)
  {
    hide Encode, Fold, AfterAt, RanSig, SigsOk, Waiting;
    FirstFails(answers);
    SecondInTurn(SIGS, answers);
    FirstUnless(SIGS);
    assert Stops(DELAYING, CANONS, SIGS, answers, 0);
    OneStop(DELAYING, CANONS, SIGS, answers, 0);
    SecondInTurn(IGNORING, answers);
    FirstUnless(IGNORING);
    RunMeans(DELAYING, CANONS, IGNORING, answers, 0);
    AcceptsInTurn(DELAYING, CANONS, IGNORING, answers);
  }

  /** A signature with l=10 and then one without l=: the second is verified with the limit of the first. */
  lemma CarriedLimit()
    ensures var sets := [Accepted(TagsOf("d", None).(length := 10)), Accepted(TagsOf("e", None))];
            LimitAfter(sets, 2) == 10 && sets[1].tags.length == -1 && LeavesLimit(sets, 0, 1)
  {
    hide Encode;
    var sets := [Accepted(TagsOf("d", None).(length := 10)), Accepted(TagsOf("e", None))];
    LimitNext(sets, 0);
    LimitNext(sets, 1);
  }
}
