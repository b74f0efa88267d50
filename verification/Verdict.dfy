/** The verifying handle: dkim_eoh_verify, dkim_get_key, dkim_sig_process and dkim_eom_verify, called in any order.
    Hashing, RSA and what a body canonicalization writes are arbitrary functions; the answers of DNS, of callbacks and
    of checks on other parts of the message are arbitrary at every call (written with *). */
module Verdict {
  import opened Text
  import opened Base64
  import opened BodySpec

  const INIT := 0
  const HEADER := 1
  const EOH1 := 2
  const EOH2 := 3
  const BODY := 4
  const EOM1 := 5
  const EOM2 := 6
  const UNUSABLE := 99

  datatype ChunkState = ChunkInit | ChunkHeader | ChunkBody | ChunkDone

  datatype Stat =
    | StatOk | BadSig | NoSig | NoKey | CantVerify | Syntax | Internal | Revoked | Invalid | KeyFail | MultiReply
    | CbReject | CbTryAgain | CbInvalid | CbError

  /** ErrSetup: one of the errors found while the signature was set up; ErrKey: one found in its key record. */
  datatype SigError =
    | ErrUnknown | ErrOk | ErrSetup(code: nat) | ErrKey(code: nat)
    | ErrNoKey | ErrDnsSyntax | ErrKeyFail | ErrBadSig | ErrSubdomain | ErrMultiReply | ErrTooLarge | ErrMbsFailed
    | ErrRevoked | ErrKeyDecode

  datatype BodyHash = Untested | Match | Mismatch

  datatype Alg = Sha1 | Sha256

  /** The tags a signature is verified with; the length is the limit used. */
  datatype Tags = Tags(domain: string, selector: string, identity: Option<string>, bh: string, b: string,
                       alg: Alg, hdrmode: Mode, bodymode: Mode, length: int)

  /** What dkim_siglist_setup finds when it checks a signature. The length of one accepted is what its own l= says, -1
      when it has none; one refused may have got as far as its l=. */
  datatype Checked = Refused(code: nat, l: Option<int>) | Accepted(tags: Tags)

  datatype KeyRecord = KeyRecord(versionOk: bool, hashesOk: bool, email: bool, typeKnown: Option<bool>, p: Option<string>,
                                 testing: bool, nosubdomain: bool)

  datatype CanonState = CanonState(hdr: bool, mode: Mode, alg: Alg, length: int, done: bool, text: string)

  datatype SigInfo = SigInfo(error: SigError, bh: BodyHash, ignored: bool, processed: bool, passed: bool, testkey: bool,
                             nosubdomain: bool, tags: Option<Tags>, hdrcanon: nat, bodycanon: nat,
                             key: Option<string>, record: Option<KeyRecord>)

  /** `unsigned`: whether a field that must be signed is there and not among those signed. The fields do not change any
      more once signatures are set up. */
  datatype Lib = Lib(hash: (Alg, string) -> seq<Octet>,
                     rsa: (Alg, seq<Octet>, string, string) -> bool,
                     canonize: (Mode, int, seq<string>) -> string,
                     unsigned: Tags -> bool,
                     delay: bool, eohcheck: bool, prescreen: bool, final: bool, lookup: bool)

  /** What comes back when a key is asked for: from the local lookup and from the query, the record parsed, whether two
      checks succeed that look at the signature as well, the key decoded, and whether it can be loaded. */
  datatype Answer = Answer(lookup: Stat, query: Stat, record: Option<KeyRecord>, hashOk: bool, granularityOk: bool,
                           decoded: Option<string>, loaded: bool)

  /** What a callback does to the signatures. */
  datatype Act = DoIgnore(i: nat) | DoProcess(i: nat, a: Answer)

  // ---------- What the flags of a signature promise ----------

  predicate CanonsFit(canons: seq<CanonState>, s: SigInfo)
    requires s.tags.Some?
  {
    var t := s.tags.value;
    && s.hdrcanon < |canons| && s.bodycanon < |canons|
    && canons[s.hdrcanon].hdr && canons[s.hdrcanon].alg == t.alg
    && !canons[s.bodycanon].hdr && canons[s.bodycanon].alg == t.alg
    && canons[s.bodycanon].mode == t.bodymode && canons[s.bodycanon].length == t.length
  }

  /** RSA accepted the signature over the headers, with the key of the signature. */
  ghost predicate HeadersSigned(lib: Lib, canons: seq<CanonState>, s: SigInfo)
    requires s.tags.Some? && CanonsFit(canons, s)
  {
    var t, hc := s.tags.value, canons[s.hdrcanon];
    s.key.Some? && hc.done && lib.rsa(t.alg, lib.hash(t.alg, hc.text), t.b, s.key.value)
  }

  /** The bh= tag is the base64 of the digest of the body. */
  ghost predicate BodyMatches(lib: Lib, canons: seq<CanonState>, s: SigInfo)
    requires s.tags.Some? && CanonsFit(canons, s)
  {
    var t, bc := s.tags.value, canons[s.bodycanon];
    bc.done && t.bh == Encode(lib.hash(t.alg, bc.text))
  }

  ghost predicate SigOk(lib: Lib, canons: seq<CanonState>, bodydone: bool, s: SigInfo) {
    Tested(lib, canons, bodydone, s) && JudgedOk(lib, s)
  }

  /** Processed, and nothing found wrong. */
  predicate JudgedOk(lib: Lib, s: SigInfo) {
    s.tags.Some? && s.processed && (s.error == ErrUnknown || s.error == ErrOk) ==> s.passed && NothingWrong(lib, s)
  }

  predicate NothingWrong(lib: Lib, s: SigInfo)
    requires s.tags.Some?
  {
    !WrongSubdomain(s) && !lib.unsigned(s.tags.value)
  }

  ghost predicate SigsOk(lib: Lib, canons: seq<CanonState>, bodydone: bool, sigs: seq<SigInfo>) {
    forall i :: 0 <= i < |sigs| ==> SigOk(lib, canons, bodydone, sigs[i])
  }

  ghost predicate Tested(lib: Lib, canons: seq<CanonState>, bodydone: bool, s: SigInfo) {
    && (s.tags.None? <==> s.error.ErrSetup?)
    && (s.tags.None? ==> !s.passed && !s.processed)
    && (s.tags.Some? ==> CanonsFit(canons, s) && TestedOk(lib, canons, bodydone, s))
  }

  ghost predicate TestedOk(lib: Lib, canons: seq<CanonState>, bodydone: bool, s: SigInfo)
    requires s.tags.Some? && CanonsFit(canons, s)
  {
    && (s.passed ==> s.processed && HeadersSigned(lib, canons, s))
    && (s.bh != Untested ==>
          && s.passed && bodydone && canons[s.bodycanon].done && s.error != ErrUnknown
          && (s.bh == Match <==> BodyMatches(lib, canons, s)))
    && (s.error == ErrOk ==> s.bh != Untested)
  }

  predicate SameCanon(c: CanonState, d: CanonState) {
    c.hdr == d.hdr && c.mode == d.mode && c.alg == d.alg && c.length == d.length && (c.done ==> d == c)
  }

  /** Canonicalizations are added and finished, never changed. */
  ghost predicate Extends(canons: seq<CanonState>, more: seq<CanonState>) {
    |canons| <= |more| && forall k :: 0 <= k < |canons| ==> SameCanon(canons[k], more[k])
  }

  lemma SigOkLater(lib: Lib, canons: seq<CanonState>, more: seq<CanonState>, bodydone: bool, s: SigInfo)
    requires SigOk(lib, canons, bodydone, s) && Extends(canons, more)
    ensures SigOk(lib, more, bodydone, s) && SigOk(lib, more, true, s)
  {
    if s.tags.Some? {
      assert SameCanon(canons[s.hdrcanon], more[s.hdrcanon]) && SameCanon(canons[s.bodycanon], more[s.bodycanon]);
    }
  }

  /** Body canonicalizations are finished all together, with what was written for the body. */
  ghost predicate CanonOk(lib: Lib, chunks: seq<string>, bodydone: bool, c: CanonState) {
    !c.hdr ==> c.done == bodydone && (c.done ==> c.text == lib.canonize(c.mode, c.length, chunks))
  }

  // ---------- Steps that concern one signature ----------

  /** What may still be good at the end of the headers. */
  predicate StillGood(s: SigInfo) {
    !s.ignored && (s.error == ErrUnknown || s.error == ErrOk) && (s.processed ==> s.passed)
  }

  predicate Passing(s: SigInfo) {
    s.passed && !s.ignored && s.bh == Match
  }

  function FirstPassing(sigs: seq<SigInfo>): (i: nat)
    ensures i <= |sigs| && (i < |sigs| ==> Passing(sigs[i])) && forall j :: 0 <= j < i ==> !Passing(sigs[j])
  {
    if sigs == [] || Passing(sigs[0]) then 0 else 1 + FirstPassing(sigs[1..])
  }

  predicate TooShort(canons: seq<CanonState>, s: SigInfo) {
    s.tags.Some? && s.bodycanon < |canons| && canons[s.bodycanon].length != -1 &&
    |canons[s.bodycanon].text| < canons[s.bodycanon].length
  }

  /** t=s in the key: the identity must be in the signing domain itself. */
  predicate WrongSubdomain(s: SigInfo)
    requires s.tags.Some?
  {
    s.nosubdomain && s.tags.value.identity.Some? && Fold(AfterAt(s.tags.value.identity.value)) != Fold(s.tags.value.domain)
  }

  function AfterAt(i: string): (r: string) {
    var n := TokenLength(i, '@');
    if n == |i| then i else i[n + 1..]
  }

  /** The other signature has been processed with the key this one needs. */
  predicate SameKey(s: SigInfo, other: SigInfo)
    requires s.tags.Some?
  {
    other.processed && other.tags.Some? &&
    other.tags.value.domain == s.tags.value.domain && other.tags.value.selector == s.tags.value.selector
  }

  /** A record of this version, for hashes and a kind of key that are known, and for mail. */
  predicate RecordGood(rec: KeyRecord) {
    rec.versionOk && rec.hashesOk && rec.email && rec.typeKnown == Some(true)
  }

  /** What looking for a key may change. */
  predicate Keyed(s: SigInfo, k: SigInfo) {
    && k == s.(error := k.error, key := k.key, record := k.record, testkey := k.testkey, nosubdomain := k.nosubdomain)
    && (k.error == s.error || k.error.ErrKey?)
  }

  // ---------- dkim_get_key and dkim_sig_process, for one signature ----------

  /** The first other signature, from index c on, that has been processed with the key signature i needs. */
  function SharedFrom(sigs: seq<SigInfo>, i: nat, c: nat): (k: nat)
    requires i < |sigs| && sigs[i].tags.Some? && c <= |sigs|
    ensures c <= k <= |sigs| && (k < |sigs| ==> k != i && SameKey(sigs[i], sigs[k]))
    ensures forall j :: c <= j < k && j != i ==> !SameKey(sigs[i], sigs[j])
    decreases |sigs| - c
  {
    if c == |sigs| || (c != i && SameKey(sigs[i], sigs[c])) then c else SharedFrom(sigs, i, c + 1)
  }

  function Other(sigs: seq<SigInfo>, i: nat): (other: Option<SigInfo>)
    requires i < |sigs| && sigs[i].tags.Some?
  {
    var c := SharedFrom(sigs, i, 0);
    if c < |sigs| then Some(sigs[c]) else None
  }

  /** Signature c has been processed, with the key of this selector in this domain that i needs too. */
  predicate UsesKey(sigs: seq<SigInfo>, i: nat, c: nat)
    requires i < |sigs| && c < |sigs| && sigs[i].tags.Some?
  {
    && c != i && sigs[c].processed && sigs[c].tags.Some?
    && sigs[c].tags.value.selector == sigs[i].tags.value.selector
    && sigs[c].tags.value.domain == sigs[i].tags.value.domain
  }

  predicate FirstUser(sigs: seq<SigInfo>, i: nat, c: nat)
    requires i < |sigs| && c < |sigs| && sigs[i].tags.Some?
  {
    UsesKey(sigs, i, c) && forall j :: 0 <= j < c ==> !UsesKey(sigs, i, j)
  }

  lemma NoOther(sigs: seq<SigInfo>, i: nat)
    requires i < |sigs| && sigs[i].tags.Some?
    ensures forall c :: 0 <= c < |sigs| && FirstUser(sigs, i, c) ==> Other(sigs, i) == Some(sigs[c])
    ensures (forall c :: 0 <= c < |sigs| ==> !UsesKey(sigs, i, c)) ==> Other(sigs, i) == None
  {
    var k := SharedFrom(sigs, i, 0);
    forall c | 0 <= c < |sigs|
      ensures UsesKey(sigs, i, c) <==> c != i && SameKey(sigs[i], sigs[c])
    {
    }
  }

  /** The local lookup, if there is one, and then the query, for what is still missing. */
  function Asked(lib: Lib, a: Answer, gotkey: bool, gotreply: bool): (r: Stat)
    ensures !gotkey && lib.lookup && a.lookup in {StatOk, NoKey, CbReject, CbTryAgain, CbError} ==> r == a.lookup
    ensures !gotkey && lib.lookup && a.lookup !in {StatOk, NoKey, CbReject, CbTryAgain, CbError} ==> r == CbInvalid
    ensures (gotkey || !lib.lookup) && !gotreply ==> r == a.query
    ensures (gotkey || !lib.lookup) && gotreply ==> r == StatOk
  {
    if !gotkey && lib.lookup then
      if a.lookup == StatOk || a.lookup == CbReject || a.lookup == CbTryAgain || a.lookup == NoKey || a.lookup == CbError
      then a.lookup else CbInvalid
    else if gotreply then StatOk
    else a.query
  }

  datatype Outcome = Outcome(r: Stat, s: SigInfo)

  /** What is wrong with a key record: the result for it, and the error that the signature is marked with, if any. */
  datatype Fault = NoFault | Fault(r: Stat, code: Option<nat>)

  /** The checks dkim_get_key makes on a key record, in its order; two of them look at the signature as well. */
  function RecordFault(rec: KeyRecord, gotkey: bool, a: Answer): (f: Fault)
    ensures f.NoFault? <==> RecordGood(rec) && a.hashOk && a.granularityOk &&
                            (gotkey || (rec.p.Some? && rec.p.value != "" && a.decoded.Some?))
    ensures f.Fault? ==> f.r in {Syntax, CantVerify, Revoked}
    ensures f.Fault? && f.code == Some(35) <==> !rec.versionOk
    ensures f.Fault? && f.code == Some(36) <==> rec.versionOk && !rec.hashesOk
    ensures f.Fault? && f.code == Some(37) <==> rec.versionOk && rec.hashesOk && !a.hashOk
    ensures f.Fault? && f.code == Some(38) <==> rec.versionOk && rec.hashesOk && a.hashOk && !rec.email
    ensures f.Fault? && f.code == Some(39) <==> rec.versionOk && rec.hashesOk && a.hashOk && rec.email && !a.granularityOk
    ensures f.Fault? && f.code in {Some(40), Some(41)} <==>
            rec.versionOk && rec.hashesOk && a.hashOk && rec.email && a.granularityOk && rec.typeKnown != Some(true)
    ensures f.Fault? && f.code == Some(40) ==> rec.typeKnown == None
    ensures f.Fault? && f.code == Some(41) ==> rec.typeKnown == Some(false)
    ensures f.Fault? && f.code == None <==> RecordGood(rec) && a.hashOk && a.granularityOk && !gotkey &&
                                            (rec.p.None? || rec.p.value == "" || a.decoded.None?)
    ensures f.Fault? && f.code.Some? ==> 35 <= f.code.value <= 41
    ensures f.Fault? && f.r == CantVerify <==> rec.versionOk && rec.hashesOk && !(a.hashOk && rec.email && a.granularityOk)
    ensures f.Fault? && f.r == Revoked <==> RecordGood(rec) && a.hashOk && a.granularityOk && !gotkey && rec.p == Some("")
  {
    if !rec.versionOk then Fault(Syntax, Some(35))
    else if !rec.hashesOk then Fault(Syntax, Some(36))
    else if !a.hashOk then Fault(CantVerify, Some(37))
    else if !rec.email then Fault(CantVerify, Some(38))
    else if !a.granularityOk then Fault(CantVerify, Some(39))
    else if rec.typeKnown.None? then Fault(Syntax, Some(40))
    else if !rec.typeKnown.value then Fault(Syntax, Some(41))
    else if gotkey then NoFault
    else if rec.p.None? then Fault(Syntax, None)
    else if rec.p.value == "" then Fault(Revoked, None)
    else if a.decoded.None? then Fault(Syntax, None)
    else NoFault
  }

  function RecordChecked(s: SigInfo, gotkey: bool, a: Answer): (o: Outcome)
    requires s.record.Some? && (gotkey ==> s.key.Some?)
    ensures Keyed(s, o.s) && (gotkey ==> o.s.key == s.key) && o.s.record == s.record
    ensures o.r == StatOk ==> o.s.error == s.error && o.s.key.Some? && RecordGood(s.record.value)
    ensures o.s.testkey == (s.testkey || (o.r == StatOk && s.record.value.testing))
    ensures o.s.nosubdomain == (s.nosubdomain || (o.r == StatOk && s.record.value.nosubdomain))
    ensures match RecordFault(s.record.value, gotkey, a)
            case NoFault => o.r == StatOk && (!gotkey ==> o.s.key == a.decoded)
            case Fault(r, code) => o.r == r && o.s.key == s.key && o.s.error == if code.Some? then ErrKey(code.value) else s.error
  {
    var rec := s.record.value;
    match RecordFault(rec, gotkey, a)
    case NoFault =>
      Outcome(StatOk, s.(key := if gotkey then s.key else a.decoded, testkey := s.testkey || rec.testing,
                         nosubdomain := s.nosubdomain || rec.nosubdomain))
    case Fault(r, code) => Outcome(r, if code.Some? then s.(error := ErrKey(code.value)) else s)
  }

  /** dkim_get_key, given the other signature whose key can be used again. */
  function KeyFrom(lib: Lib, s: SigInfo, other: Option<SigInfo>, a: Answer): (o: Outcome)
    ensures Keyed(s, o.s)
    ensures o.r == StatOk ==> o.s.error == s.error && o.s.key.Some? && o.s.record.Some? && RecordGood(o.s.record.value)
    ensures o.r == StatOk && other.Some? && other.value.key.Some? ==> o.s.key == other.value.key
  {
    var gotkey := other.Some? && other.value.key.Some?;
    var gotset := other.Some? && other.value.record.Some?;
    var r := Asked(lib, a, gotkey, gotset);
    var s' := s.(key := if gotkey then other.value.key else s.key,
                 record := if gotset then other.value.record else if r == StatOk then a.record else s.record);
    if r != StatOk then Outcome(r, s')
    else if s'.record.None? then Outcome(Syntax, s')
    else RecordChecked(s', gotkey, a)
  }

  /** What comes of asking for a key, in terms of the answers: the key of the other signature, or the one in the record. */
  lemma KeyMeans(lib: Lib, s: SigInfo, other: Option<SigInfo>, a: Answer)
    ensures var o := KeyFrom(lib, s, other, a);
            var gotkey := other.Some? && other.value.key.Some?;
            var gotset := other.Some? && other.value.record.Some?;
            var asked, record := Asked(lib, a, gotkey, gotset), if gotset then other.value.record else a.record;
            && (asked != StatOk ==> o.r == asked && o.s.error == s.error && o.s.nosubdomain == s.nosubdomain)
            && (asked == StatOk && record.None? ==> o.r == Syntax && o.s.error == s.error)
            && (asked == StatOk && record.Some? ==>
                  && o.s.record == record
                  && o.s.testkey == (s.testkey || (o.r == StatOk && record.value.testing))
                  && o.s.nosubdomain == (s.nosubdomain || (o.r == StatOk && record.value.nosubdomain))
                  && match RecordFault(record.value, gotkey, a)
                     case NoFault => o.r == StatOk && (!gotkey ==> o.s.key == a.decoded)
                     case Fault(r, code) => o.r == r && o.s.error == if code.Some? then ErrKey(code.value) else s.error)
  {
    hide RecordFault, Asked;
  }

  datatype Checkup = Checkup(r: Stat, s: SigInfo, done: bool)

  /** The error that a signature is marked with whose key could not be had; for other results it is left alone. */
  function KeyFailure(r: Stat, error: SigError): (e: Option<SigError>)
    ensures e != Some(ErrUnknown) && (e == Some(ErrOk) ==> error == ErrOk)
  {
    match r
    case NoKey => Some(ErrNoKey)
    case KeyFail => Some(ErrKeyFail)
    case CantVerify => Some(if error == ErrUnknown then ErrDnsSyntax else error)
    case Syntax => Some(if error == ErrUnknown then ErrDnsSyntax else error)
    case MultiReply => Some(ErrMultiReply)
    case Revoked => Some(ErrRevoked)
    case _ => None
  }

  /** The part of dkim_sig_process that is done once, given what dkim_get_key has done: ask RSA. */
  function HeadersChecked(lib: Lib, hc: CanonState, got: Outcome, a: Answer): (k: Checkup)
    requires got.s.tags.Some? && (got.r == StatOk ==> got.s.key.Some?)
  {
    var s, t := got.s, got.s.tags.value;
    if got.r == StatOk then
      if !a.loaded then Checkup(StatOk, s.(error := ErrKeyDecode), true)
      else
        var good := lib.rsa(t.alg, lib.hash(hc.alg, hc.text), t.b, s.key.value);
        Checkup(StatOk, s.(processed := true, passed := s.passed || good, error := if good then s.error else ErrBadSig), false)
    else
      match KeyFailure(got.r, s.error)
      case Some(e) => Checkup(StatOk, s.(processed := true, error := e), true)
      case None => Checkup(got.r, s, true)
  }

  /** What looking at the key and asking RSA makes of a signature that has not been processed. */
  lemma CheckupMeans(lib: Lib, canons: seq<CanonState>, bodydone: bool, s: SigInfo, got: Outcome, a: Answer)
    requires SigOk(lib, canons, bodydone, s) && !s.processed && s.error == ErrUnknown && canons[s.hdrcanon].done
    requires Keyed(s, got.s) && (got.r == StatOk ==> got.s.key.Some? && got.s.error == s.error)
    ensures var k := HeadersChecked(lib, canons[s.hdrcanon], got, a);
            && Tested(lib, canons, bodydone, k.s) && k.s.ignored == s.ignored
            && k.s.tags == s.tags && k.s.bodycanon == s.bodycanon
            && (k.done ==> (k.r != StatOk || k.s.error != ErrUnknown) && !k.s.passed && SigOk(lib, canons, bodydone, k.s))
            && (!k.done ==> && k.r == StatOk && k.s.processed && k.s.bh == Untested && k.s.error != ErrOk
                            && (k.s.passed <==> HeadersSigned(lib, canons, k.s))
                            && (k.s.passed <==> k.s.error == ErrUnknown))
            && (k.r != StatOk ==> !k.s.passed)
  {
    hide Fold, AfterAt;
  }

  /** What each answer about the key makes of it. */
  lemma CheckupErrors(lib: Lib, hc: CanonState, got: Outcome, a: Answer)
    requires got.s.tags.Some? && !got.s.passed && (got.r == StatOk ==> got.s.key.Some?)
    ensures var k := HeadersChecked(lib, hc, got, a);
            && (got.r != StatOk ==> k.done && k.s.passed == got.s.passed)
            && (got.r == NoKey ==> k.done && k.r == StatOk && k.s.processed && k.s.error == ErrNoKey)
            && (got.r == KeyFail ==> k.done && k.r == StatOk && k.s.processed && k.s.error == ErrKeyFail)
            && (got.r == Revoked ==> k.done && k.r == StatOk && k.s.processed && k.s.error == ErrRevoked)
            && (got.r == MultiReply ==> k.done && k.r == StatOk && k.s.processed && k.s.error == ErrMultiReply)
            && (got.r in {CantVerify, Syntax} ==>
                  k.done && k.r == StatOk && k.s.processed &&
                  k.s.error == if got.s.error == ErrUnknown then ErrDnsSyntax else got.s.error)
            && (got.r !in {StatOk, NoKey, KeyFail, Revoked, MultiReply, CantVerify, Syntax} ==>
                  k.done && k.r == got.r && k.s.processed == got.s.processed)
            && (got.r == StatOk && !a.loaded ==> k.done && k.r == StatOk && k.s.processed == got.s.processed && k.s.error == ErrKeyDecode)
            && (got.r == StatOk && a.loaded ==> !k.done && k.s.key == got.s.key && (!k.s.passed ==> k.s.error == ErrBadSig))
            && k.s.nosubdomain == got.s.nosubdomain && k.s.testkey == got.s.testkey
  {
  }

  lemma CheckupKeeps(lib: Lib, hc: CanonState, got: Outcome, a: Answer)
    requires got.s.tags.Some? && (got.r == StatOk ==> got.s.key.Some?)
    ensures var k := HeadersChecked(lib, hc, got, a);
            k.s.tags == got.s.tags && k.s.bodycanon == got.s.bodycanon && k.s.ignored == got.s.ignored
  {
  }

  /** The rest of dkim_sig_process: the body hash, the subdomain and the fields that must be signed. */
  function Judged(lib: Lib, canons: seq<CanonState>, bodydone: bool, s: SigInfo): (j: SigInfo)
    requires s.tags.Some? && s.bodycanon < |canons|
  {
    var t, bc := s.tags.value, canons[s.bodycanon];
    var bh := if bodydone && s.bh == Untested && s.passed
              then if t.bh == Encode(lib.hash(bc.alg, bc.text)) then Match else Mismatch
              else s.bh;
    var error := if lib.unsigned(t) then ErrMbsFailed else if WrongSubdomain(s) then ErrSubdomain else s.error;
    s.(bh := bh, error := if error == ErrUnknown && bh != Untested then ErrOk else error)
  }

  lemma JudgedMeans(lib: Lib, canons: seq<CanonState>, bodydone: bool, s: SigInfo)
    requires Tested(lib, canons, bodydone, s) && s.tags.Some? && s.processed && s.error != ErrOk
    requires s.error == ErrUnknown ==> s.bh == Untested && s.passed
    requires bodydone ==> canons[s.bodycanon].done
    ensures var j := Judged(lib, canons, bodydone, s);
            && SigOk(lib, canons, bodydone, j) && j.ignored == s.ignored && j.processed && j.passed == s.passed
            && j.tags == s.tags && j.bodycanon == s.bodycanon && j.nosubdomain == s.nosubdomain
            && (bodydone && s.bh == Untested && s.passed ==>
                  && (j.bh == Match <==> BodyMatches(lib, canons, s)) && j.bh != Untested
                  && (s.error == ErrUnknown ==> (j.error == ErrOk <==> NothingWrong(lib, s)) && j.error != ErrUnknown))
            && (s.passed && s.error != ErrUnknown && bodydone && s.bh == Untested ==> j.error != ErrOk)
            && (j.error == ErrUnknown && bodydone ==> !j.passed)
            && (lib.unsigned(s.tags.value) ==> j.error == ErrMbsFailed)
            && (!lib.unsigned(s.tags.value) && WrongSubdomain(s) ==> j.error == ErrSubdomain)
            && (NothingWrong(lib, s) ==> j.error == if s.error == ErrUnknown && bodydone then ErrOk else s.error)
            && j.testkey == s.testkey && j.key == s.key
  {
    hide Encode, Fold, AfterAt;
  }

  /** The same for signature i; its header canonicalization must have been finished. */
  function HeadersOf(lib: Lib, canons: seq<CanonState>, sigs: seq<SigInfo>, i: nat, a: Answer): (k: Checkup)
    requires i < |sigs| && sigs[i].tags.Some? && sigs[i].hdrcanon < |canons|
  {
    var hc := canons[sigs[i].hdrcanon];
    if hc.done then HeadersChecked(lib, hc, KeyFrom(lib, sigs[i], Other(sigs, i), a), a)
    else Checkup(Internal, sigs[i], true)
  }

  lemma HeadersKeep(lib: Lib, canons: seq<CanonState>, sigs: seq<SigInfo>, i: nat, a: Answer)
    requires i < |sigs| && sigs[i].tags.Some? && sigs[i].hdrcanon < |canons|
    ensures var k := HeadersOf(lib, canons, sigs, i, a);
            k.s.tags == sigs[i].tags && k.s.bodycanon == sigs[i].bodycanon && k.s.ignored == sigs[i].ignored
  {
    hide KeyFrom, HeadersChecked, SharedFrom;
    if canons[sigs[i].hdrcanon].done {
      CheckupKeeps(lib, canons[sigs[i].hdrcanon], KeyFrom(lib, sigs[i], Other(sigs, i), a), a);
    }
  }

  /** dkim_sig_process for signature i, and what it makes of it. */
  function Processed(lib: Lib, canons: seq<CanonState>, bodydone: bool, sigs: seq<SigInfo>, i: nat, a: Answer): (o: Outcome)
    requires i < |sigs| && SigsOk(lib, canons, bodydone, sigs)
  {
    var s := sigs[i];
    assert SigOk(lib, canons, bodydone, s);
    if s.ignored || s.error != ErrUnknown then Outcome(StatOk, s)
    else if s.processed then Outcome(StatOk, Judged(lib, canons, bodydone, s))
    else
      HeadersKeep(lib, canons, sigs, i, a);
      var k := HeadersOf(lib, canons, sigs, i, a);
      if k.done then Outcome(k.r, k.s) else Outcome(StatOk, Judged(lib, canons, bodydone, k.s))
  }

  /** Body canonicalizations are all finished once the body is done. */
  predicate BodiesDone(canons: seq<CanonState>, bodydone: bool) {
    bodydone ==> forall k :: 0 <= k < |canons| && !canons[k].hdr ==> canons[k].done
  }

  lemma ProcessedMeans(lib: Lib, canons: seq<CanonState>, bodydone: bool, sigs: seq<SigInfo>, i: nat, a: Answer)
    requires i < |sigs| && SigsOk(lib, canons, bodydone, sigs) && BodiesDone(canons, bodydone)
    ensures var s, o := sigs[i], Processed(lib, canons, bodydone, sigs, i, a);
            && SigOk(lib, canons, bodydone, o.s) && o.s.ignored == s.ignored && o.s.tags == s.tags
            && o.s.bodycanon == s.bodycanon
            && (s.ignored || s.error != ErrUnknown ==> o == Outcome(StatOk, s))
            && (o.r == StatOk && !o.s.ignored && o.s.error == ErrUnknown ==> o.s.processed && (bodydone ==> !o.s.passed))
            && (o.r != StatOk ==> !o.s.passed)
            && (s.processed && !s.ignored && s.error == ErrUnknown && bodydone ==>
                  (Passing(o.s) <==> BodyMatches(lib, canons, s)) && o.s.error == ErrOk)
            && (!s.processed && !s.ignored && s.error == ErrUnknown && bodydone && Passing(o.s) ==>
                  (o.s.error == ErrOk <==> NothingWrong(lib, o.s)))
            && (!s.processed && !s.ignored && s.error == ErrUnknown && bodydone ==>
                  (Passing(o.s) <==> o.s.passed && BodyMatches(lib, canons, s)))
  {
    hide SameKey, Fold, AfterAt, Encode, HeadersChecked, KeyFrom, Judged;
    var s := sigs[i];
    assert SigOk(lib, canons, bodydone, s);
    if !s.ignored && s.error == ErrUnknown {
      if s.processed {
        JudgedMeans(lib, canons, bodydone, s);
      } else if canons[s.hdrcanon].done {
        var got := KeyFrom(lib, s, Other(sigs, i), a);
        CheckupMeans(lib, canons, bodydone, s, got, a);
        var k := HeadersOf(lib, canons, sigs, i, a);
        if !k.done {
          JudgedMeans(lib, canons, bodydone, k.s);
        }
      }
    }
  }

  lemma ProcessedKeeps(lib: Lib, canons: seq<CanonState>, bodydone: bool, sigs: seq<SigInfo>, i: nat, a: Answer)
    requires i < |sigs| && SigsOk(lib, canons, bodydone, sigs) && BodiesDone(canons, bodydone)
    ensures var s, o := sigs[i], Processed(lib, canons, bodydone, sigs, i, a);
            && SigsOk(lib, canons, bodydone, sigs[i := o.s])
            && o.s.ignored == s.ignored && o.s.tags == s.tags && o.s.bodycanon == s.bodycanon
            && (s.error != ErrUnknown ==> o.s == s)
            && (o.r == StatOk && !o.s.ignored && o.s.error == ErrUnknown ==> o.s.processed && (bodydone ==> !o.s.passed))
            && (o.r != StatOk ==> !o.s.passed)
  {
    hide Processed, SigOk, SigsOk, BodiesDone;
    ProcessedMeans(lib, canons, bodydone, sigs, i, a);
    ReplaceOk(lib, canons, bodydone, sigs, i, Processed(lib, canons, bodydone, sigs, i, a).s);
  }

  // ---------- What dkim_eoh does, in terms of what it finds ----------

  /** What dkim_eoh finds out: whether there is a sender field, whether it has a colon, whether its address can be split;
      what the prescreen callback does and answers; the canonical header texts; and the answers about keys. */
  datatype Env = Env(sender: bool, colon: bool, split: bool, acts: seq<Act>, reply: Stat, texts: nat -> Option<string>,
                     answers: nat -> Answer)
  {
    predicate Sent() {
      sender && colon && split
    }
  }

  function CallbackStat(reply: Stat): (r: Stat) {
    if reply == StatOk || reply == CbReject || reply == CbTryAgain then reply else CbInvalid
  }

  function Later(state: int, least: int): (r: int) {
    if state < least then least else state
  }

  function CanonRun(c: CanonState, text: Option<string>): (r: CanonState) {
    if c.hdr && !c.done && text.Some? then c.(done := true, text := text.value) else c
  }

  predicate Failing(c: CanonState, text: Option<string>) {
    c.hdr && !c.done && text.None?
  }

  function FirstFailing(canons: seq<CanonState>, texts: nat -> Option<string>): (k: nat)
    ensures k <= |canons| && (k < |canons| ==> Failing(canons[k], texts(k)))
    ensures forall j :: 0 <= j < k ==> !Failing(canons[j], texts(j))
  {
    FailingFrom(canons, texts, 0)
  }

  function FailingFrom(canons: seq<CanonState>, texts: nat -> Option<string>, i: nat): (k: nat)
    requires i <= |canons|
    ensures i <= k <= |canons| && (k < |canons| ==> Failing(canons[k], texts(k)))
    ensures forall j :: i <= j < k ==> !Failing(canons[j], texts(j))
    decreases |canons| - i
  {
    if i == |canons| || Failing(canons[i], texts(i)) then i else FailingFrom(canons, texts, i + 1)
  }

  lemma FailingIs(canons: seq<CanonState>, texts: nat -> Option<string>)
    ensures forall j :: 0 <= j < |canons| && Failing(canons[j], texts(j)) ==> FirstFailing(canons, texts) <= j
  {
  }

  /** The canonicalizations before the first that fails are finished. */
  function CanonsRun(canons: seq<CanonState>, texts: nat -> Option<string>): (r: seq<CanonState>)
    ensures |r| == |canons|
    ensures forall j :: 0 <= j < |canons| ==>
              r[j] == if j < FirstFailing(canons, texts) then CanonRun(canons[j], texts(j)) else canons[j]
  {
    seq(|canons|, j requires 0 <= j < |canons| =>
                    if j < FirstFailing(canons, texts) then CanonRun(canons[j], texts(j)) else canons[j])
  }

  lemma RunMarks(canons: seq<CanonState>, texts: nat -> Option<string>)
    ensures Unfinished(CanonsRun(canons, texts)) <==> FirstFailing(canons, texts) < |canons|
  {
    var r, f := CanonsRun(canons, texts), FirstFailing(canons, texts);
    if f < |canons| {
      assert Failing(canons[f], texts(f)) && r[f] == canons[f];
    } else {
      forall k | 0 <= k < |r| && r[k].hdr
        ensures r[k].done
      {
        assert !Failing(canons[k], texts(k));
      }
    }
  }

  predicate AllIgnored(sigs: seq<SigInfo>) {
    forall i :: 0 <= i < |sigs| ==> sigs[i].ignored
  }

  /** Some header canonicalization has not been finished. */
  predicate Unfinished(canons: seq<CanonState>) {
    exists k :: 0 <= k < |canons| && canons[k].hdr && !canons[k].done
  }

  /** What dkim_eoh_verify returns and leaves of these signatures, once the prescreen callback has let them pass. */
  ghost predicate HeadersVerified(lib: Lib, canons: seq<CanonState>, bodydone: bool, sigs: seq<SigInfo>, answers: nat -> Answer,
                                  unfinished: bool, r: Stat, after: seq<SigInfo>)
  {
    if AllIgnored(sigs) then r == NoSig && after == sigs
    else if unfinished then r == Internal && after == sigs
    else
      && SigsOk(lib, canons, bodydone, sigs) && BodiesDone(canons, bodydone)
      && var p := if lib.delay then Processing(StatOk, sigs) else ProcessedFrom(lib, canons, bodydone, sigs, answers, 0);
         && after == p.sigs
         && r == if p.r == StatOk && lib.eohcheck && !(exists i :: 0 <= i < |after| && StillGood(after[i])) then CantVerify else p.r
  }

  /** With all of them ignored it does not matter what else there is. */
  lemma IgnoredNever(lib: Lib, canons: seq<CanonState>, bodydone: bool, sigs: seq<SigInfo>, answers: nat -> Answer, r: Stat,
                     after: seq<SigInfo>)
    ensures AllIgnored(sigs) ==> forall a, b: bool :: HeadersVerified(lib, canons, bodydone, sigs, answers, a, r, after)
                                                  <==> HeadersVerified(lib, canons, bodydone, sigs, answers, b, r, after)
  {
  }

  datatype Processing = Processing(r: Stat, sigs: seq<SigInfo>)

  /** The signatures from c on, those that count and have not been processed, one after the other. */
  function ProcessedFrom(lib: Lib, canons: seq<CanonState>, bodydone: bool, sigs: seq<SigInfo>, answers: nat -> Answer, c: nat)
    : (p: Processing)
    requires c <= |sigs| && SigsOk(lib, canons, bodydone, sigs) && BodiesDone(canons, bodydone)
    ensures |p.sigs| == |sigs|
    decreases |sigs| - c
  {
    if c == |sigs| then Processing(StatOk, sigs)
    else if sigs[c].processed || sigs[c].ignored || sigs[c].error != ErrUnknown
    then ProcessedFrom(lib, canons, bodydone, sigs, answers, c + 1)
    else
      var o, next := Processed(lib, canons, bodydone, sigs, c, answers(c)), RunOne(lib, canons, bodydone, sigs, c, answers(c));
      if o.r != StatOk then Processing(o.r, next) else ProcessedFrom(lib, canons, bodydone, next, answers, c + 1)
  }

  lemma ProcessedStep(lib: Lib, canons: seq<CanonState>, bodydone: bool, sigs: seq<SigInfo>, answers: nat -> Answer, c: nat)
    requires c < |sigs| && SigsOk(lib, canons, bodydone, sigs) && BodiesDone(canons, bodydone)
    ensures ProcessedFrom(lib, canons, bodydone, sigs, answers, c) ==
            if sigs[c].processed || sigs[c].ignored || sigs[c].error != ErrUnknown
            then ProcessedFrom(lib, canons, bodydone, sigs, answers, c + 1)
            else
              var o, next := Processed(lib, canons, bodydone, sigs, c, answers(c)), RunOne(lib, canons, bodydone, sigs, c, answers(c));
              if o.r != StatOk then Processing(o.r, next) else ProcessedFrom(lib, canons, bodydone, next, answers, c + 1)
    ensures RunOne(lib, canons, bodydone, sigs, c, answers(c)) == sigs[c := Processed(lib, canons, bodydone, sigs, c, answers(c)).s]
  {
    hide Processed, SigOk, SigsOk, BodiesDone;
  }

  lemma ProcessedEnd(lib: Lib, canons: seq<CanonState>, bodydone: bool, sigs: seq<SigInfo>, answers: nat -> Answer)
    requires SigsOk(lib, canons, bodydone, sigs) && BodiesDone(canons, bodydone)
    ensures ProcessedFrom(lib, canons, bodydone, sigs, answers, |sigs|) == Processing(StatOk, sigs)
  {
  }

  // ---------- What dkim_eom decides, in terms of what it finds ----------

  /** What the final callback leaves of the signatures. */
  function AfterActs(lib: Lib, canons: seq<CanonState>, bodydone: bool, sigs: seq<SigInfo>, acts: seq<Act>): (r: seq<SigInfo>)
    requires SigsOk(lib, canons, bodydone, sigs) && BodiesDone(canons, bodydone)
    ensures |r| == |sigs| && SigsOk(lib, canons, bodydone, r)
    decreases |acts|
  {
    if acts == [] then sigs else AfterActs(lib, canons, bodydone, AfterAct(lib, canons, bodydone, sigs, acts[0]), acts[1..])
  }

  lemma ActsStep(lib: Lib, canons: seq<CanonState>, bodydone: bool, sigs: seq<SigInfo>, acts: seq<Act>, n: nat)
    requires SigsOk(lib, canons, bodydone, sigs) && BodiesDone(canons, bodydone) && n < |acts|
    ensures AfterActs(lib, canons, bodydone, sigs, acts[n..])
         == AfterActs(lib, canons, bodydone, AfterAct(lib, canons, bodydone, sigs, acts[n]), acts[n + 1..])
  {
    hide AfterAct;
    assert acts[n..][0] == acts[n] && acts[n..][1..] == acts[n + 1..];
  }

  lemma ActsEnd(lib: Lib, canons: seq<CanonState>, bodydone: bool, sigs: seq<SigInfo>, acts: seq<Act>)
    requires SigsOk(lib, canons, bodydone, sigs) && BodiesDone(canons, bodydone)
    ensures AfterActs(lib, canons, bodydone, sigs, acts[|acts|..]) == sigs
  {
  }

  function AfterAct(lib: Lib, canons: seq<CanonState>, bodydone: bool, sigs: seq<SigInfo>, act: Act): (r: seq<SigInfo>)
    requires SigsOk(lib, canons, bodydone, sigs) && BodiesDone(canons, bodydone)
    ensures |r| == |sigs| && SigsOk(lib, canons, bodydone, r)
  {
    if act.i >= |sigs| then sigs
    else match act
      case DoIgnore(i) => IgnoredOk(lib, canons, bodydone, sigs, i); sigs[i := sigs[i].(ignored := true)]
      case DoProcess(i, a) => RunOne(lib, canons, bodydone, sigs, i, a)
  }

  function RunOne(lib: Lib, canons: seq<CanonState>, bodydone: bool, sigs: seq<SigInfo>, i: nat, a: Answer): (r: seq<SigInfo>)
    requires i < |sigs| && SigsOk(lib, canons, bodydone, sigs) && BodiesDone(canons, bodydone)
    ensures |r| == |sigs| && SigsOk(lib, canons, bodydone, r) && forall j :: 0 <= j < |sigs| && j != i ==> r[j] == sigs[j]
  {
    var o := Processed(lib, canons, bodydone, sigs, i, a);
    ProcessedMeans(lib, canons, bodydone, sigs, i, a);
    ReplaceOk(lib, canons, bodydone, sigs, i, o.s);
    sigs[i := o.s]
  }

  lemma ReplaceOk(lib: Lib, canons: seq<CanonState>, bodydone: bool, sigs: seq<SigInfo>, i: nat, s: SigInfo)
    requires i < |sigs| && SigsOk(lib, canons, bodydone, sigs) && SigOk(lib, canons, bodydone, s)
    ensures SigsOk(lib, canons, bodydone, sigs[i := s])
  {
    hide SigOk;
  }

  lemma IgnoredOk(lib: Lib, canons: seq<CanonState>, bodydone: bool, sigs: seq<SigInfo>, i: nat)
    requires i < |sigs| && SigsOk(lib, canons, bodydone, sigs)
    ensures SigsOk(lib, canons, bodydone, sigs[i := sigs[i].(ignored := true)])
  {
    hide AfterAt, Fold;
    assert SigOk(lib, canons, bodydone, sigs[i]);
  }

  /** The signatures after the first n of them, those ignored apart, have been run at the end of the message. */
  function Ran(lib: Lib, canons: seq<CanonState>, sigs: seq<SigInfo>, answers: nat -> Answer, n: nat): (r: seq<SigInfo>)
    requires n <= |sigs| && SigsOk(lib, canons, true, sigs) && BodiesDone(canons, true)
    ensures |r| == |sigs| && SigsOk(lib, canons, true, r) && forall j :: n <= j < |sigs| ==> r[j] == sigs[j]
  {
    if n == 0 then sigs
    else
      var before := Ran(lib, canons, sigs, answers, n - 1);
      if sigs[n - 1].ignored then before else RunOne(lib, canons, true, before, n - 1, answers(n - 1))
  }

  /** Signature c once it has been run. */
  function RanSig(lib: Lib, canons: seq<CanonState>, sigs: seq<SigInfo>, answers: nat -> Answer, c: nat): (s: SigInfo)
    requires c < |sigs| && SigsOk(lib, canons, true, sigs) && BodiesDone(canons, true)
  {
    Ran(lib, canons, sigs, answers, c + 1)[c]
  }

  /** The first signature that passes when they are run one after the other. */
  ghost predicate Stops(lib: Lib, canons: seq<CanonState>, sigs: seq<SigInfo>, answers: nat -> Answer, c: nat)
    requires SigsOk(lib, canons, true, sigs) && BodiesDone(canons, true)
  {
    && c < |sigs| && Passing(RanSig(lib, canons, sigs, answers, c))
    && forall j :: 0 <= j < c ==> !Passing(RanSig(lib, canons, sigs, answers, j))
  }

  /** The verdict: on a signature that passes already, or else on the first that passes when it is run. */
  ghost predicate Accepts(lib: Lib, canons: seq<CanonState>, sigs: seq<SigInfo>, answers: nat -> Answer)
    requires SigsOk(lib, canons, true, sigs) && BodiesDone(canons, true)
  {
    if FirstPassing(sigs) < |sigs| then sigs[FirstPassing(sigs)].error == ErrOk
    else exists c :: Stops(lib, canons, sigs, answers, c) && RanSig(lib, canons, sigs, answers, c).error == ErrOk
  }

  /** The result for a signature that dkim_eom has settled on, by its flags. */
  predicate ResultFor(s: SigInfo, r: Stat) {
    && (r == NoKey <==> s.error == ErrNoKey)
    && (r == KeyFail <==> s.error == ErrKeyFail)
    && (r == Revoked <==> s.error == ErrRevoked)
    && (r == BadSig <==> s.error == ErrBadSig || (Clear(s) && (!s.passed || s.bh == Mismatch)))
    && (r == StatOk <==> Clear(s) && s.passed && s.bh != Mismatch)
    && (r == CantVerify <==> !Clear(s) && s.error !in {ErrNoKey, ErrKeyFail, ErrRevoked, ErrBadSig})
    && r in {NoKey, KeyFail, Revoked, BadSig, StatOk, CantVerify}
  }

  predicate Clear(s: SigInfo) {
    s.error == ErrOk || s.error == ErrUnknown
  }

  /** The signature dkim_eom settles on: one that passes already, or else the first that passes when it is run, or else
      the first that is not ignored; s is what it has become. */
  ghost predicate Chosen(lib: Lib, canons: seq<CanonState>, sigs: seq<SigInfo>, answers: nat -> Answer, c: nat, s: SigInfo)
    requires SigsOk(lib, canons, true, sigs) && BodiesDone(canons, true)
  {
    && c < |sigs|
    && if FirstPassing(sigs) < |sigs| then c == FirstPassing(sigs) && s == sigs[c]
       else
         && s == RanSig(lib, canons, sigs, answers, c)
         && if exists d :: Stops(lib, canons, sigs, answers, d) then Stops(lib, canons, sigs, answers, c)
            else !sigs[c].ignored && forall j :: 0 <= j < c ==> sigs[j].ignored
  }

  /** What dkim_eom returns and leaves, from these signatures on. */
  ghost predicate Concluded(lib: Lib, canons: seq<CanonState>, sigs: seq<SigInfo>, answers: nat -> Answer,
                            r: Stat, signature: Option<nat>, testkey: bool)
    requires SigsOk(lib, canons, true, sigs) && BodiesDone(canons, true)
  {
    if AllIgnored(sigs) then r == NoSig && !testkey
    else
      && signature.Some?
      && exists s :: Chosen(lib, canons, sigs, answers, signature.value, s) && ResultFor(s, r) &&
                     testkey == (r != CantVerify && s.testkey)
  }

  /** When RSA has refused every signature that counts, the message is not taken for one without signatures. */
  lemma ForgedIsBad(lib: Lib, canons: seq<CanonState>, sigs: seq<SigInfo>, answers: nat -> Answer,
                    r: Stat, signature: Option<nat>, testkey: bool)
    requires SigsOk(lib, canons, true, sigs) && BodiesDone(canons, true)
    requires Concluded(lib, canons, sigs, answers, r, signature, testkey)
    requires !AllIgnored(sigs) && forall i :: 0 <= i < |sigs| && !sigs[i].ignored ==> sigs[i].error == ErrBadSig
    ensures r == BadSig
  {
    hide SigsOk, BodiesDone, Ran;
    var c := signature.value;
    var s :| Chosen(lib, canons, sigs, answers, c, s) && ResultFor(s, r) && testkey == (r != CantVerify && s.testkey);
    if FirstPassing(sigs) == |sigs| {
      RanOne(lib, canons, sigs, answers, c);
    }
  }

  function Marks(canons: seq<CanonState>, sigs: seq<SigInfo>): (r: seq<SigInfo>)
    ensures |r| == |sigs|
    ensures forall i :: 0 <= i < |sigs| ==> r[i] == MarkOne(canons, sigs[i])
  {
    seq(|sigs|, i requires 0 <= i < |sigs| => MarkOne(canons, sigs[i]))
  }

  ghost predicate AllMarked(canons: seq<CanonState>, sigs: seq<SigInfo>) {
    forall i :: 0 <= i < |sigs| && TooShort(canons, sigs[i]) ==> sigs[i].error == ErrTooLarge
  }

  lemma StillMarked(canons: seq<CanonState>, sigs: seq<SigInfo>, i: nat, s: SigInfo)
    requires i < |sigs| && s.tags == sigs[i].tags && s.bodycanon == sigs[i].bodycanon
    requires sigs[i].error != ErrUnknown ==> s.error == sigs[i].error
    ensures AllMarked(canons, sigs) ==> AllMarked(canons, sigs[i := s])
  {
    hide TooShort;
    assert TooShort(canons, s) == TooShort(canons, sigs[i]) by { SameShort(canons, s, sigs[i]); }
  }

  lemma SameShort(canons: seq<CanonState>, s: SigInfo, t: SigInfo)
    requires s.tags == t.tags && s.bodycanon == t.bodycanon
    ensures TooShort(canons, s) <==> TooShort(canons, t)
  {
  }

  function MarkOne(canons: seq<CanonState>, s: SigInfo): (r: SigInfo) {
    if TooShort(canons, s) then s.(error := ErrTooLarge) else s
  }

  /** A signature as good as it can be before the end of the message: the headers have passed, nothing is wrong so far,
      the body is the one it was made for, and l= is not beyond its end. */
  predicate GoodFor(lib: Lib, chunks: seq<string>, s: SigInfo) {
    && !s.ignored && s.passed && s.error == ErrUnknown && s.tags.Some?
    && var t := s.tags.value;
       var text := lib.canonize(t.bodymode, t.length, chunks);
       t.bh == Encode(lib.hash(t.alg, text)) && (t.length == -1 || t.length <= |text|)
  }

  /** Every signature that counts was processed at the end of the headers. */
  predicate AllProcessed(sigs: seq<SigInfo>) {
    forall i :: 0 <= i < |sigs| && !sigs[i].ignored && sigs[i].error == ErrUnknown ==> sigs[i].processed
  }

  class Verifier {
    const lib: Lib
    var state: int
    var chunkstate: ChunkState
    var sets: seq<Checked>           // the well-formed DKIM-Signature fields
    var sigs: seq<SigInfo>           // empty until they are set up
    var canons: seq<CanonState>
    var chunks: seq<string>          // the body given to the canonicalizations
    var skipbody: bool
    var bodydone: bool
    var signature: Option<nat>       // the signature the verdict is about

    ghost predicate Valid()
      reads this
    {
      && SigsOk(lib, canons, bodydone, sigs)
      && (forall k :: 0 <= k < |canons| ==> CanonOk(lib, chunks, bodydone, canons[k]))
      && (bodydone ==> state >= EOM1)
      && (sigs == [] ==> canons == [])
    }

    constructor (lib: Lib)
      ensures Valid() && this.lib == lib && state == INIT && sigs == []
    {
      this.lib := lib;
      state, chunkstate, sets, sigs, canons, chunks := INIT, ChunkInit, [], [], [], [];
      skipbody, bodydone, signature := false, false, None;
    }

    /** dkim_sig_ignore. */
    method Ignore(i: nat)
      requires Valid() && i < |sigs|
      modifies this`sigs
      ensures Valid() && sigs == old(sigs)[i := old(sigs)[i].(ignored := true)] && (old(Marked()) ==> Marked())
    {
      sigs := sigs[i := sigs[i].(ignored := true)];
    }

    /** A signature processed before that has the same selector and domain. */
    method SharedKey(i: nat) returns (c: nat)
      requires i < |sigs| && sigs[i].tags.Some?
      ensures c == SharedFrom(sigs, i, 0)
    {
      c := 0;
      while c < |sigs| && !(c != i && SameKey(sigs[i], sigs[c]))
        invariant c <= |sigs| && SharedFrom(sigs, i, c) == SharedFrom(sigs, i, 0)
      {
        c := c + 1;
      }
    }

    /** dkim_get_key: a key that another signature has already is used again. */
    method GetKey(i: nat, a: Answer) returns (o: Outcome)
      requires i < |sigs| && sigs[i].tags.Some?
      ensures o == KeyFrom(lib, sigs[i], Other(sigs, i), a)
      ensures forall c :: 0 <= c < |sigs| && FirstUser(sigs, i, c) && sigs[c].key.Some? && o.r == StatOk ==> o.s.key == sigs[c].key
      ensures (forall c :: 0 <= c < |sigs| ==> !UsesKey(sigs, i, c)) && o.r == StatOk ==> o.s.key == a.decoded && o.s.record == a.record
    {
      NoOther(sigs, i);
      KeyMeans(lib, sigs[i], Other(sigs, i), a);
      var c := SharedKey(i);
      o := KeyFrom(lib, sigs[i], if c < |sigs| then Some(sigs[c]) else None, a);
    }

    /** The part of dkim_sig_process that is done once. */
    method CheckHeaders(i: nat, a: Answer) returns (k: Checkup)
      requires i < |sigs| && sigs[i].tags.Some? && sigs[i].hdrcanon < |canons|
      modifies this`sigs
      ensures sigs == old(sigs)[i := k.s]
      ensures k == HeadersOf(lib, canons, old(sigs), i, a)
    {
      hide KeyFrom, HeadersChecked, SharedFrom;
      k := Checkup(Internal, sigs[i], true);
      if canons[sigs[i].hdrcanon].done {
        var got := GetKey(i, a);
        k := HeadersChecked(lib, canons[sigs[i].hdrcanon], got, a);
        sigs := sigs[i := k.s];
      }
    }

    /** dkim_sig_process. */
    method Process(i: nat, a: Answer) returns (r: Stat)
      requires Valid() && i < |sigs|
      modifies this`sigs
      ensures Valid() && |sigs| == |old(sigs)| && sigs == old(sigs)[i := sigs[i]]
      ensures Outcome(r, sigs[i]) == Processed(lib, canons, bodydone, old(sigs), i, a)
      ensures sigs[i].ignored == old(sigs[i].ignored) && (old(Marked()) ==> Marked())
      ensures r == StatOk && !sigs[i].ignored && sigs[i].error == ErrUnknown ==> sigs[i].processed
    {
      hide SigOk, Processed, AllMarked, SigsOk, CanonOk, BodiesDone;
      BodiesFinished();
      ghost var o := Processed(lib, canons, bodydone, sigs, i, a);
      ProcessedKeeps(lib, canons, bodydone, sigs, i, a);
      StillMarked(canons, sigs, i, o.s);
      SigParts(i);
      r := ProcessLive(i, a);
      assert sigs == old(sigs)[i := o.s];
    }

    method ProcessLive(i: nat, a: Answer) returns (r: Stat)
      requires i < |sigs| && SigsOk(lib, canons, bodydone, sigs)
      requires sigs[i].error == ErrUnknown ==> sigs[i].tags.Some? && CanonsFit(canons, sigs[i])
      modifies this`sigs
      ensures sigs == old(sigs)[i := Processed(lib, canons, bodydone, old(sigs), i, a).s]
      ensures r == Processed(lib, canons, bodydone, old(sigs), i, a).r
    {
      hide SigOk, Judged, HeadersOf, SharedFrom, SigsOk, WrongSubdomain;
      if sigs[i].ignored || sigs[i].error != ErrUnknown {
        return StatOk;
      }
      if !sigs[i].processed {
        HeadersKeep(lib, canons, sigs, i, a);
        var k := CheckHeaders(i, a);
        if k.done {
          return k.r;
        }
      }
      sigs := sigs[i := Judged(lib, canons, bodydone, sigs[i])];
      r := StatOk;
    }

    lemma BodiesFinished()
      requires Valid()
      ensures BodiesDone(canons, bodydone)
    {
      forall k | 0 <= k < |canons| && !canons[k].hdr
        ensures bodydone ==> canons[k].done
      {
        assert CanonOk(lib, chunks, bodydone, canons[k]);
      }
    }

    lemma SigParts(i: nat)
      requires Valid() && i < |sigs|
      ensures SigOk(lib, canons, bodydone, sigs[i])
      ensures sigs[i].error == ErrUnknown ==> sigs[i].tags.Some? && CanonsFit(canons, sigs[i])
    {
    }

    /** The invariant, when canonicalizations have been added or finished. */
    lemma StillOk(more: seq<CanonState>, done: bool)
      requires Valid() && Extends(canons, more) && (done == bodydone || done)
      ensures forall i :: 0 <= i < |sigs| ==> SigOk(lib, more, done, sigs[i])
    {
      forall i | 0 <= i < |sigs| ensures SigOk(lib, more, done, sigs[i]) {
        SigOkLater(lib, canons, more, bodydone, sigs[i]);
      }
    }

    /** dkim_add_canon: body canonicalizations with the same parameters are shared. */
    method AddCanon(hdr: bool, mode: Mode, alg: Alg, length: int) returns (k: nat)
      modifies this`canons
      ensures |old(canons)| <= |canons| <= |old(canons)| + 1 && canons[..|old(canons)|] == old(canons)
      ensures k < |canons| && canons[k].hdr == hdr && canons[k].alg == alg && canons[k].mode == mode
      ensures canons[k].length == if hdr then -1 else length
      ensures |canons| > |old(canons)| ==> k == |old(canons)| && !canons[k].done
      ensures hdr ==> k == |old(canons)|
      ensures !hdr && |canons| > |old(canons)| ==>
                forall j :: 0 <= j < |old(canons)| ==>
                  canons[j].hdr || canons[j].alg != alg || canons[j].mode != mode || canons[j].length != length
    {
      k := 0;
      while !hdr && k < |canons|
        invariant k <= |canons| && (hdr ==> k == 0)
        invariant forall j :: 0 <= j < k ==> !SharesWith(canons[j], mode, alg, length)
      {
        if SharesWith(canons[k], mode, alg, length) {
          return;
        }
        k := k + 1;
      }
      k := |canons|;
      canons := canons + [CanonState(hdr, mode, alg, if hdr then -1 else length, false, "")];
    }

    /** dkim_siglist_setup. The limit is carried from one signature to the next. */
    method SetupList()
      requires Valid() && sigs == [] && !bodydone && sets != []
      modifies this`sigs, this`canons
      ensures Valid() && |sigs| == |sets|
      ensures forall i :: 0 <= i < |sigs| ==> FreshFrom(sets[i], LimitAfter(sets, i + 1), sigs[i])
    {
      hide SigOk, CanonOk, FreshFrom, LimitAfter, LengthRead;
      var list: seq<SigInfo> := [];
      var signlen := -1;
      LimitFirst(sets);
      while |list| < |sets|
        invariant |list| <= |sets| && signlen == LimitAfter(sets, |list|)
        invariant forall i :: 0 <= i < |list| ==> FreshFrom(sets[i], LimitAfter(sets, i + 1), list[i])
        invariant forall i :: 0 <= i < |list| ==> SigOk(lib, canons, false, list[i])
        invariant forall k :: 0 <= k < |canons| ==> CanonOk(lib, chunks, false, canons[k])
      {
        LimitNext(sets, |list|);
        var l := LengthRead(sets[|list|]);
        if l.Some? {
          signlen := l.value;
        }
        var s := SetupOne(sets[|list|], signlen, list);
        list := list + [s];
      }
      sigs := list;
    }

    /** One signature, with the limit in force. */
    method SetupOne(checked: Checked, signlen: int, ghost list: seq<SigInfo>) returns (s: SigInfo)
      requires forall k :: 0 <= k < |canons| ==> CanonOk(lib, chunks, false, canons[k])
      requires forall i :: 0 <= i < |list| ==> SigOk(lib, canons, false, list[i])
      modifies this`canons
      ensures forall k :: 0 <= k < |canons| ==> CanonOk(lib, chunks, false, canons[k])
      ensures forall i :: 0 <= i < |list| ==> SigOk(lib, canons, false, list[i])
      ensures FreshFrom(checked, signlen, s) && SigOk(lib, canons, false, s)
    {
      // the record starts with every byte 0, and DKIM_SIGBH_MATCH is 0
      s := SigInfo(ErrUnknown, Match, false, false, false, false, false, None, 0, 0, None, None);
      match checked
      case Refused(code, _) =>
        s := s.(error := ErrSetup(code));
      case Accepted(t) =>
        ghost var before := canons;
        var hc := AddCanon(true, t.hdrmode, t.alg, -1);
        var bc := AddCanon(false, t.bodymode, t.alg, signlen);
        LaterAll(before, canons, list);
        s := s.(tags := Some(t.(length := signlen)), hdrcanon := hc, bodycanon := bc, bh := Untested);
    }

    lemma LaterAll(before: seq<CanonState>, after: seq<CanonState>, list: seq<SigInfo>)
      requires |before| <= |after| && after[..|before|] == before
      requires forall i :: 0 <= i < |list| ==> SigOk(lib, before, false, list[i])
      ensures forall i :: 0 <= i < |list| ==> SigOk(lib, after, false, list[i])
    {
      forall k | 0 <= k < |before| ensures SameCanon(before[k], after[k]) {
        assert after[..|before|][k] == before[k];
      }
      forall i | 0 <= i < |list| ensures SigOk(lib, after, false, list[i]) {
        SigOkLater(lib, before, after, false, list[i]);
      }
    }

    /** dkim_canon_runheaders, which finishes the header canonicalizations in order, with these texts, and fails at the
        first without one. */
    method RunHeaders(texts: nat -> Option<string>) returns (r: Stat)
      requires Valid()
      modifies this`canons
      ensures Valid() && canons == CanonsRun(old(canons), texts) && Extends(old(canons), canons)
      ensures r == if FirstFailing(old(canons), texts) < |canons| then Internal else StatOk
      ensures r == StatOk ==> forall k :: 0 <= k < |canons| && canons[k].hdr ==> canons[k].done
    {
      ghost var start := canons;
      var k := 0;
      FailingIs(start, texts);
      while k < |canons|
        invariant k <= |canons| == |start| && Valid() && Extends(start, canons) && k <= FirstFailing(start, texts)
        invariant forall j :: 0 <= j < k ==> canons[j] == CanonRun(start[j], texts(j))
        invariant forall j :: k <= j < |canons| ==> canons[j] == start[j]
        invariant forall j :: 0 <= j < k && canons[j].hdr ==> canons[j].done
      {
        if canons[k].hdr && !canons[k].done {
          var text := texts(k);
          if text.None? {
            return Internal;
          }
          StillOk(canons[k := canons[k].(done := true, text := text.value)], bodydone);
          canons := canons[k := canons[k].(done := true, text := text.value)];
        }
        k := k + 1;
      }
      r := StatOk;
    }

    /** The prescreen and final callbacks: they may ignore and process any signatures before they answer. */
    method Callback(acts: seq<Act>, reply: Stat) returns (answer: Stat)
      requires Valid()
      modifies this`sigs
      ensures Valid() && |sigs| == |old(sigs)| && BodiesDone(canons, bodydone)
      ensures sigs == AfterActs(lib, canons, bodydone, old(sigs), acts)
      ensures answer == CallbackStat(reply)
      ensures answer == if reply in {StatOk, CbReject, CbTryAgain} then reply else CbInvalid
      ensures old(Marked()) ==> Marked()
    {
      hide SigOk, AllMarked, Processed, SigsOk, BodiesDone, CanonOk, AfterActs;
      BodiesFinished();
      var n := 0;
      assert acts[0..] == acts;
      while n < |acts|
        invariant n <= |acts| && Valid() && |sigs| == |old(sigs)| && (old(Marked()) ==> Marked())
        invariant AfterActs(lib, canons, bodydone, sigs, acts[n..]) == AfterActs(lib, canons, bodydone, old(sigs), acts)
      {
        ActsStep(lib, canons, bodydone, sigs, acts, n);
        var act := acts[n];
        if act.i < |sigs| {
          match act
          case DoIgnore(i) => Ignore(i);
          case DoProcess(i, a) => var _ := Process(i, a);
        }
        n := n + 1;
      }
      ActsEnd(lib, canons, bodydone, sigs, acts);
      answer := if reply == StatOk || reply == CbReject || reply == CbTryAgain then reply else CbInvalid;
    }

    /** dkim_header: the field may be a signature, found or malformed. */
    method Header(malformed: bool, found: Option<Checked>) returns (r: Stat)
      requires Valid()
      modifies this`state, this`sets
      ensures Valid()
      ensures old(state) > HEADER ==> r == Invalid && state == old(state) && sets == old(sets)
      ensures old(state) <= HEADER ==>
                && state == HEADER && r == (if malformed then Syntax else StatOk)
                && sets == old(sets) + if !malformed && found.Some? then [found.value] else []
    {
      if state > HEADER {
        return Invalid;
      }
      state := HEADER;
      if malformed {
        assert sets == sets + [];
        return Syntax;
      }
      if found.Some? {
        sets := sets + [found.value];
      }
      r := StatOk;
    }

    /** The first half of dkim_eoh_verify: find the sender, set up the signatures, ask the prescreen callback. */
    method Prepare(env: Env) returns (r: Stat)
      requires Valid() && EOH1 <= state < EOH2 && !bodydone
      modifies this`state, this`sigs, this`canons, this`skipbody
      ensures Valid() && BodiesDone(canons, bodydone)
      ensures !env.sender || (env.colon && !env.split) ==>
                r == Syntax && state == UNUSABLE && sigs == old(sigs) && skipbody == old(skipbody)
      ensures env.sender && !env.colon ==> r == Syntax && state == old(state) && sigs == old(sigs) && skipbody == old(skipbody)
      ensures env.Sent() ==> state == old(state)
      ensures env.Sent() && old(sigs) == [] && sets == [] ==> r == NoSig && skipbody && sigs == []
      ensures env.Sent() && (old(sigs) != [] || sets != []) ==>
                && skipbody == old(skipbody) && sigs != []
                && r == (if lib.prescreen then CallbackStat(env.reply) else StatOk)
                && |sigs| == (if old(sigs) == [] then |sets| else |old(sigs)|)
      ensures env.Sent() && old(sigs) == [] && !lib.prescreen ==>
                forall i :: 0 <= i < |sigs| ==> FreshFrom(sets[i], LimitAfter(sets, i + 1), sigs[i])
      ensures env.Sent() && old(sigs) != [] ==>
                && canons == old(canons)
                && sigs == if lib.prescreen then AfterActs(lib, canons, bodydone, old(sigs), env.acts) else old(sigs)
    {
      hide SigOk, CanonOk, Extends, FreshFrom, LimitAfter, AfterActs, SigsOk, BodiesDone;
      BodiesFinished();
      if !env.sender || (env.colon && !env.split) {
        state := UNUSABLE;
        return Syntax;
      } else if !env.colon {
        return Syntax;
      }
      if sigs == [] {
        if sets == [] {
          skipbody := true;
          return NoSig;
        }
        SetupList();
        BodiesFinished();
      }
      r := StatOk;
      if lib.prescreen {
        r := Callback(env.acts, env.reply);
      }
    }

    /** The second half: canonicalize the headers for the signatures not ignored, and process these. */
    method VerifyHeaders(env: Env) returns (r: Stat)
      requires Valid() && BodiesDone(canons, bodydone)
      modifies this`sigs, this`canons, this`skipbody
      ensures Valid() && BodiesDone(canons, bodydone)
      ensures AllIgnored(old(sigs)) ==> skipbody && canons == old(canons)
      ensures !AllIgnored(old(sigs)) ==> skipbody == old(skipbody) && canons == CanonsRun(old(canons), env.texts)
      ensures HeadersVerified(lib, canons, bodydone, old(sigs), env.answers, FirstFailing(old(canons), env.texts) < |old(canons)|,
                              r, sigs)
      ensures r == StatOk ==> exists i :: 0 <= i < |sigs| && !sigs[i].ignored
      ensures r == StatOk ==> forall k :: 0 <= k < |canons| && canons[k].hdr ==> canons[k].done
      ensures r == StatOk && lib.eohcheck ==> exists i :: 0 <= i < |sigs| && StillGood(sigs[i])
      ensures r == StatOk && !lib.delay ==> AllProcessed(sigs)
    {
      hide SigOk, CanonOk, StillGood, Extends, SigsOk, BodiesDone, ProcessedFrom, CanonsRun, FirstFailing;
      var c := FirstNotIgnored();
      if c == |sigs| {
        skipbody := true;
        return NoSig;
      }
      assert !sigs[c].ignored;
      r := RunHeaders(env.texts);
      BodiesFinished();
      if r != StatOk {
        return;
      }
      if !lib.delay {
        r := ProcessAll(env.answers);
        if r != StatOk {
          return;
        }
      }
      assert !sigs[c].ignored;
      if lib.eohcheck {
        var good := AnyGood();
        if !good {
          return CantVerify;
        }
      }
    }

    /** dkim_eoh_verify. `mid` are the signatures after the prescreen callback. */
    method Eoh(env: Env) returns (r: Stat, ghost mid: seq<SigInfo>)
      requires Valid()
      modifies this`state, this`sigs, this`canons, this`skipbody
      ensures Valid() && BodiesDone(canons, bodydone)
      ensures old(state) >= EOH2 ==> r == Invalid && sigs == old(sigs) && state == old(state) && skipbody == old(skipbody)
      ensures old(state) < EOH2 && !env.Sent() ==>
                && r == Syntax && sigs == old(sigs) && skipbody == old(skipbody)
                && state == if env.sender && !env.colon then Later(old(state), EOH1) else UNUSABLE
      ensures old(state) < EOH2 && env.Sent() && old(sigs) == [] && sets == [] ==>
                r == NoSig && skipbody && sigs == [] && state == Later(old(state), EOH1)
      ensures old(state) < EOH2 && env.Sent() && (old(sigs) != [] || sets != []) ==>
                && |mid| == (if old(sigs) == [] then |sets| else |old(sigs)|)
                && (old(sigs) != [] && !lib.prescreen ==> mid == old(sigs))
                && (old(sigs) == [] && !lib.prescreen ==>
                      forall i :: 0 <= i < |mid| ==> FreshFrom(sets[i], LimitAfter(sets, i + 1), mid[i]))
      ensures old(state) < EOH2 && env.Sent() && (old(sigs) != [] || sets != []) && lib.prescreen && env.reply != StatOk ==>
                r == CallbackStat(env.reply) && sigs == mid && skipbody == old(skipbody) && state == Later(old(state), EOH1)
      ensures old(state) < EOH2 && env.Sent() && (old(sigs) != [] || sets != []) && (!lib.prescreen || env.reply == StatOk) ==>
                && state == EOH2 && (if AllIgnored(mid) then skipbody else skipbody == old(skipbody))
                && HeadersVerified(lib, canons, bodydone, mid, env.answers, Unfinished(canons), r, sigs)
      ensures r == StatOk ==> state == EOH2 && exists i :: 0 <= i < |sigs| && !sigs[i].ignored
      ensures r == StatOk ==> forall k :: 0 <= k < |canons| && canons[k].hdr ==> canons[k].done
      ensures r == StatOk && lib.eohcheck ==> exists i :: 0 <= i < |sigs| && StillGood(sigs[i])
      ensures r == StatOk && !lib.delay ==> AllProcessed(sigs)
    {
      hide SigOk, CanonOk, StillGood, SigsOk, BodiesDone, AfterActs, FreshFrom, LimitAfter, HeadersVerified, AllProcessed, AllIgnored,
        Unfinished, CanonsRun, FirstFailing;
      mid := sigs;
      BodiesFinished();
      if state >= EOH2 {
        return Invalid, mid;
      }
      if state < EOH1 {
        state := EOH1;
      }
      r := Prepare(env);
      mid := sigs;
      if r != StatOk {
        return;
      }
      state := EOH2;
      ghost var start := canons;
      r := VerifyHeaders(env);
      RunMarks(start, env.texts);
      IgnoredNever(lib, canons, bodydone, mid, env.answers, r, sigs);
    }

    /** dkim_sig_process for all signatures that count, up to the first that cannot be processed. */
    method ProcessAll(answers: nat -> Answer) returns (r: Stat)
      requires Valid() && BodiesDone(canons, bodydone)
      modifies this`sigs
      ensures Valid() && |sigs| == |old(sigs)|
      ensures Processing(r, sigs) == ProcessedFrom(lib, canons, bodydone, old(sigs), answers, 0)
      ensures forall i :: 0 <= i < |sigs| ==> sigs[i].ignored == old(sigs[i].ignored)
      ensures r == StatOk ==> AllProcessed(sigs)
    {
      hide SigOk, Processed, CanonOk, SigsOk, BodiesDone, ProcessedFrom;
      var c := 0;
      while c < |sigs|
        invariant c <= |sigs| == |old(sigs)| && Valid() && BodiesDone(canons, bodydone)
        invariant forall i :: 0 <= i < |sigs| ==> sigs[i].ignored == old(sigs[i].ignored)
        invariant forall i :: 0 <= i < c && !sigs[i].ignored && sigs[i].error == ErrUnknown ==> sigs[i].processed
        invariant ProcessedFrom(lib, canons, bodydone, sigs, answers, c)
               == ProcessedFrom(lib, canons, bodydone, old(sigs), answers, 0)
      {
        ProcessedStep(lib, canons, bodydone, sigs, answers, c);
        if !sigs[c].processed && !sigs[c].ignored && sigs[c].error == ErrUnknown {
          ProcessedKeeps(lib, canons, bodydone, sigs, c, answers(c));
          r := Process(c, answers(c));
          if r != StatOk {
            return;
          }
        }
        c := c + 1;
      }
      ProcessedEnd(lib, canons, bodydone, sigs, answers);
      r := StatOk;
    }

    method AnyGood() returns (good: bool)
      ensures good <==> exists i :: 0 <= i < |sigs| && StillGood(sigs[i])
    {
      good := false;
      var c := 0;
      while c < |sigs|
        invariant c <= |sigs| && forall i :: 0 <= i < c ==> !StillGood(sigs[i])
      {
        if sigs[c].ignored {
        } else if sigs[c].error != ErrUnknown && sigs[c].error != ErrOk {
        } else if sigs[c].processed && !sigs[c].passed {
        } else {
          return true;
        }
        c := c + 1;
      }
    }

    /** dkim_body. */
    method Body(chunk: string) returns (r: Stat)
      requires Valid()
      modifies this`state, this`chunks
      ensures Valid() && r == if old(state) > BODY then Invalid else StatOk
      ensures r == Invalid ==> state == old(state)
      ensures chunks == if old(state) > BODY || skipbody then old(chunks) else old(chunks) + [chunk]
    {
      if state > BODY {
        return Invalid;
      }
      state := BODY;
      if !skipbody {
        chunks := chunks + [chunk];
      }
      r := StatOk;
    }

    /** dkim_canon_closebody. */
    method CloseBody()
      requires Valid() && state >= EOM1
      modifies this`canons, this`bodydone
      ensures Valid() && bodydone && Extends(old(canons), canons)
    {
      var cs := canons;
      var k := 0;
      while k < |cs|
        invariant k <= |cs| == |canons| && cs[k..] == canons[k..] && Extends(canons, cs)
        invariant forall j :: 0 <= j < k ==> CanonOk(lib, chunks, true, cs[j])
      {
        assert cs[k] == cs[k..][0] == canons[k..][0] == canons[k];
        assert CanonOk(lib, chunks, bodydone, canons[k]);
        var c := cs[k];
        if !c.done && !c.hdr {
          cs := cs[k := c.(done := true, text := lib.canonize(c.mode, c.length, chunks))];
        }
        k := k + 1;
      }
      StillOk(cs, true);
      canons, bodydone := cs, true;
    }

    /** l= beyond the end of the body. */
    method MarkTooLarge()
      requires Valid()
      modifies this`sigs
      ensures Valid() && Marked() && sigs == Marks(canons, old(sigs))
    {
      var c := 0;
      while c < |sigs|
        invariant c <= |sigs| == |old(sigs)| && Valid() && sigs[c..] == old(sigs)[c..]
        invariant forall i :: 0 <= i < c ==> sigs[i] == MarkOne(canons, old(sigs[i]))
      {
        assert sigs[c] == sigs[c..][0] == old(sigs)[c..][0] == old(sigs[c]);
        if TooShort(canons, sigs[c]) {
          sigs := sigs[c := sigs[c].(error := ErrTooLarge)];
        }
        c := c + 1;
      }
    }

    /** dkim_chunk, as far as it concerns the verdict: any calls of dkim_header, dkim_eoh and dkim_body, and any
        chunking state. */
    method Chunk()
      requires Valid()
      modifies this
      ensures Valid() && (old(state) >= EOM1 ==> state == old(state))
    {
      var n: int := *;
      while n > 0
        invariant Valid() && (old(state) >= EOM1 ==> state == old(state))
      {
        n := n - 1;
        var which: int, part: string := *, *;
        if which == 0 {
          var malformed: bool, found: Option<Checked> := *, *;
          var _ := Header(malformed, found);
        } else if which == 1 {
          var env: Env := *;
          var _, _ := Eoh(env);
        } else {
          var _ := Body(part);
        }
      }
      chunkstate := *;
    }

    /** The first signature that passes, running those that have not been run; |sigs| if there is none. */
    method Choose(answers: nat -> Answer) returns (c: nat)
      requires Valid() && bodydone
      modifies this`sigs
      ensures Valid() && |sigs| == |old(sigs)| && BodiesDone(canons, true)
      ensures c == FirstPassing(sigs) && (old(Marked()) ==> Marked())
      ensures FirstPassing(old(sigs)) < |sigs| ==> sigs == old(sigs)
      ensures FirstPassing(old(sigs)) == |sigs| && c < |sigs| ==>
                Stops(lib, canons, old(sigs), answers, c) && sigs[c] == RanSig(lib, canons, old(sigs), answers, c)
      ensures c == |sigs| ==> forall j :: !Stops(lib, canons, old(sigs), answers, j)
      ensures forall i :: 0 <= i < |sigs| ==> sigs[i].ignored == old(sigs)[i].ignored
      ensures c == |sigs| ==> forall i :: 0 <= i < |sigs| ==> sigs[i] == RanSig(lib, canons, old(sigs), answers, i)
      ensures c == |sigs| ==> forall i :: 0 <= i < |sigs| ==> sigs[i].ignored || sigs[i].error != ErrUnknown || !sigs[i].passed
    {
      hide SigOk, CanonOk, TooShort, FirstPassing, Processed, Ran;
      BodiesFinished();
      FirstUnless(sigs);
      c := 0;
      while c < |sigs| && !Passing(sigs[c])
        invariant c <= |sigs| && forall i :: 0 <= i < c ==> !Passing(sigs[i])
      {
        c := c + 1;
      }
      FirstIs(sigs, c);
      if c == |sigs| {
        c := RunAll(answers);
      }
      FirstIs(sigs, c);
    }

    /** Run the signatures until one passes. */
    method RunAll(answers: nat -> Answer) returns (c: nat)
      requires Valid() && bodydone && FirstPassing(sigs) == |sigs| && BodiesDone(canons, true)
      modifies this`sigs
      ensures Valid() && |sigs| == |old(sigs)| && (old(Marked()) ==> Marked())
      ensures c <= |sigs| && (c < |sigs| ==> Passing(sigs[c])) && forall i :: 0 <= i < c ==> !Passing(sigs[i])
      ensures c < |sigs| ==>
                Stops(lib, canons, old(sigs), answers, c) && sigs[c] == RanSig(lib, canons, old(sigs), answers, c)
      ensures c == |sigs| ==> forall j :: !Stops(lib, canons, old(sigs), answers, j)
      ensures forall i :: 0 <= i < |sigs| ==> sigs[i].ignored == old(sigs)[i].ignored
      ensures c == |sigs| ==> forall i :: 0 <= i < |sigs| ==> sigs[i] == RanSig(lib, canons, old(sigs), answers, i)
      ensures c == |sigs| ==> forall i :: 0 <= i < |sigs| ==> sigs[i].ignored || sigs[i].error != ErrUnknown || !sigs[i].passed
    {
      hide SigOk, CanonOk, TooShort, Processed, Ran, SigsOk, BodiesDone, RanSig;
      ghost var start := sigs;
      RanNone(lib, canons, start, answers);
      c := 0;
      while c < |sigs|
        invariant c <= |sigs| == |start| && Valid() && (old(Marked()) ==> Marked())
        invariant sigs == Ran(lib, canons, start, answers, c)
        invariant forall i :: 0 <= i < |sigs| ==> sigs[i].ignored == start[i].ignored
        invariant forall i :: 0 <= i < c ==> sigs[i] == RanSig(lib, canons, start, answers, i)
        invariant forall i :: 0 <= i < c ==> !Passing(sigs[i]) && !Passing(RanSig(lib, canons, start, answers, i))
        invariant forall i :: 0 <= i < c ==> sigs[i].ignored || sigs[i].error != ErrUnknown || !sigs[i].passed
      {
        RanOne(lib, canons, start, answers, c);
        ProcessedKeeps(lib, canons, true, sigs, c, answers(c));
        if !sigs[c].ignored {
          var status := Process(c, answers(c));
          assert sigs == Ran(lib, canons, start, answers, c + 1);
          if status == StatOk && sigs[c].passed && sigs[c].bh == Match {
            break;
          }
        }
        c := c + 1;
      }
    }

    /** dkim_eom_verify; `from` tells that the domain is known or can be had from the From field. */
    method Eom(from: bool, acts: seq<Act>, reply: Stat, answers: nat -> Answer) returns (r: Stat, testkey: bool)
      requires Valid()
      modifies this
      ensures Valid() && chunks == old(chunks)
      ensures old(state) >= EOM2 ==> r == Invalid && state == old(state) && sigs == old(sigs)
      ensures r == StatOk ==> state == EOM2 && signature == Some(FirstPassing(sigs)) && FirstPassing(sigs) < |sigs|
      ensures r == StatOk ==> Genuine(lib, canons, chunks, sigs[FirstPassing(sigs)])
      ensures old(Entered()) ==>
                var marked := Marks(canons, old(sigs));
                && SigsOk(lib, canons, true, marked) && BodiesDone(canons, true)
                && (!lib.final ==> (r == StatOk <==> Accepts(lib, canons, marked, answers)))
                && (lib.final && reply == StatOk ==>
                      (r == StatOk <==> Accepts(lib, canons, AfterActs(lib, canons, true, marked, acts), answers)))
                && (!lib.final ==> Concluded(lib, canons, marked, answers, r, signature, testkey))
                && (lib.final && reply == StatOk ==>
                      Concluded(lib, canons, AfterActs(lib, canons, true, marked, acts), answers, r, signature, testkey))
                && (lib.final && reply != StatOk ==> r == CallbackStat(reply) && !testkey && state == Later(old(state), EOM1))
      ensures old(state) >= EOM2 || old(chunkstate != ChunkInit && chunkstate != ChunkDone) ==> r == Invalid && !testkey
      ensures old(state) < EOM2 && old(chunkstate == ChunkInit || chunkstate == ChunkDone) && old(sigs) == [] ==>
                r == (if from then NoSig else CantVerify) && !testkey && state == Later(old(state), EOM1)
      ensures old(Entered() && !bodydone && AllProcessed(sigs)) && !lib.final ==>
                (r == StatOk <==> exists i :: 0 <= i < |old(sigs)| && GoodFor(lib, chunks, old(sigs)[i]))
      ensures testkey ==> signature.Some? && signature.value < |sigs| && sigs[signature.value].testkey
    {
      hide SigOk, CanonOk, Genuine, TooShort, Extends, FirstPassing, Accepts, AllProcessed, GoodFor, AfterActs, Marks, SigsOk,
        BodiesDone, Concluded;
      testkey := false;
      if state >= EOM2 {
        return Invalid, false;
      }
      if state < EOM1 {
        state := EOM1;
      }
      if chunkstate != ChunkInit && chunkstate != ChunkDone {
        return Invalid, false;
      }
      CloseBody();
      if sigs == [] {
        return if from then NoSig else CantVerify, false;
      }
      r, testkey := Conclude(acts, reply, answers, old(canons));
    }

    /** dkim_eom_verify, when the body is done. */
    method Conclude(acts: seq<Act>, reply: Stat, answers: nat -> Answer, ghost canons0: seq<CanonState>)
      returns (r: Stat, testkey: bool)
      requires Valid() && bodydone && sigs != [] && EOM1 <= state < EOM2
      modifies this`sigs, this`signature, this`state
      ensures Valid()
      ensures r == StatOk ==> state == EOM2 && signature == Some(FirstPassing(sigs)) && FirstPassing(sigs) < |sigs|
      ensures r == StatOk ==> Genuine(lib, canons, chunks, sigs[FirstPassing(sigs)])
      ensures var marked := Marks(canons, old(sigs));
              && SigsOk(lib, canons, true, marked) && BodiesDone(canons, true)
              && (!lib.final ==> (r == StatOk <==> Accepts(lib, canons, marked, answers)))
              && (lib.final && reply == StatOk ==>
                    (r == StatOk <==> Accepts(lib, canons, AfterActs(lib, canons, true, marked, acts), answers)))
              && (!lib.final ==> Concluded(lib, canons, marked, answers, r, signature, testkey))
              && (lib.final && reply == StatOk ==>
                    Concluded(lib, canons, AfterActs(lib, canons, true, marked, acts), answers, r, signature, testkey))
              && (lib.final && reply != StatOk ==> r == CallbackStat(reply) && !testkey && state == old(state))
      ensures SigsOk(lib, canons0, false, old(sigs)) && old(AllProcessed(sigs)) && !lib.final ==>
                (r == StatOk <==> exists i :: 0 <= i < |old(sigs)| && GoodFor(lib, chunks, old(sigs)[i]))
      ensures testkey ==> signature.Some? && signature.value < |sigs| && sigs[signature.value].testkey
    {
      hide SigOk, CanonOk, Genuine, TooShort, FirstPassing, Accepts, AllProcessed, GoodFor, AfterActs, Marks, SigsOk, BodiesDone,
        Concluded;
      testkey := false;
      MarkTooLarge();
      BodiesFinished();
      if SigsOk(lib, canons0, false, old(sigs)) && old(AllProcessed(sigs)) {
        AcceptsGood(canons0, old(sigs), answers);
      }
      if lib.final {
        r := Callback(acts, reply);
        if r != StatOk {
          return;
        }
      }
      state := EOM2;
      r, testkey := Decide(answers);
    }

    /** dkim_eom_verify comes to a verdict. */
    ghost predicate Entered()
      reads this
    {
      state < EOM2 && (chunkstate == ChunkInit || chunkstate == ChunkDone) && sigs != []
    }

    /** When all signatures were processed at the end of the headers, the flags found decide. */
    lemma AcceptsGood(canons0: seq<CanonState>, sigs0: seq<SigInfo>, answers: nat -> Answer)
      requires Valid() && bodydone && BodiesDone(canons, true) && sigs == Marks(canons, sigs0)
      requires SigsOk(lib, canons0, false, sigs0) && AllProcessed(sigs0)
      ensures Accepts(lib, canons, sigs, answers) <==> exists i :: 0 <= i < |sigs0| && GoodFor(lib, chunks, sigs0[i])
    {
      hide SigOk, RanSig, GoodFor, FirstPassing, SigsOk;
      forall i | 0 <= i < |sigs|
        ensures !Passing(sigs[i])
        ensures Passing(RanSig(lib, canons, sigs, answers, i)) <==> GoodFor(lib, chunks, sigs0[i])
        ensures Passing(RanSig(lib, canons, sigs, answers, i)) ==> RanSig(lib, canons, sigs, answers, i).error == ErrOk
      {
        NotYet(canons0, sigs0, i);
        GoodPasses(sigs0, answers, i);
      }
      FirstUnless(sigs);
      if i :| 0 <= i < |sigs0| && GoodFor(lib, chunks, sigs0[i]) {
        var c := SomeStop(lib, canons, sigs, answers, i);
      }
    }

    /** Before the end of the message nothing passes. */
    lemma NotYet(canons0: seq<CanonState>, sigs0: seq<SigInfo>, i: nat)
      requires SigsOk(lib, canons0, false, sigs0) && i < |sigs0| && sigs == Marks(canons, sigs0)
      ensures !Passing(sigs[i])
    {
      hide JudgedOk;
      assert SigOk(lib, canons0, false, sigs0[i]);
    }

    lemma GoodPasses(sigs0: seq<SigInfo>, answers: nat -> Answer, i: nat)
      requires Valid() && bodydone && BodiesDone(canons, true) && sigs == Marks(canons, sigs0)
      requires AllProcessed(sigs0) && i < |sigs| && !Passing(sigs[i])
      ensures var s := RanSig(lib, canons, sigs, answers, i);
              (Passing(s) <==> GoodFor(lib, chunks, sigs0[i])) && (Passing(s) ==> s.error == ErrOk)
    {
      hide Processed, Ran, RanSig, SigOk, AfterAt, Fold, Encode;
      RanOne(lib, canons, sigs, answers, i);
      var before := Ran(lib, canons, sigs, answers, i);
      ProcessedMeans(lib, canons, true, before, i, answers(i));
      GoodMeans(sigs0, i);
      SigParts(i);
    }

    /** A signature that is as good as can be before the end of the message, in terms of the flags after. */
    lemma GoodMeans(sigs0: seq<SigInfo>, i: nat)
      requires Valid() && bodydone && sigs == Marks(canons, sigs0) && AllProcessed(sigs0) && i < |sigs|
      ensures GoodFor(lib, chunks, sigs0[i]) <==>
              !sigs[i].ignored && sigs[i].error == ErrUnknown && sigs[i].tags.Some? && CanonsFit(canons, sigs[i]) &&
              sigs[i].processed && BodyMatches(lib, canons, sigs[i])
      ensures !sigs[i].ignored && sigs[i].error == ErrUnknown ==> sigs[i].processed
    {
      hide AfterAt, Fold, Encode;
      var s := sigs[i];
      assert SigOk(lib, canons, bodydone, s);
      assert s == MarkOne(canons, sigs0[i]);
      if s.tags.Some? {
        assert CanonOk(lib, chunks, bodydone, canons[s.bodycanon]);
      }
    }

    /** The end of dkim_eom_verify: settle on a signature, and on the result for it. */
    method Decide(answers: nat -> Answer) returns (r: Stat, testkey: bool)
      requires Valid() && bodydone && Marked() && BodiesDone(canons, true)
      modifies this`sigs, this`signature
      ensures Valid()
      ensures r == StatOk ==> signature == Some(FirstPassing(sigs)) && FirstPassing(sigs) < |sigs|
      ensures r == StatOk ==> Genuine(lib, canons, chunks, sigs[FirstPassing(sigs)])
      ensures r == StatOk <==> Accepts(lib, canons, old(sigs), answers)
      ensures Concluded(lib, canons, old(sigs), answers, r, signature, testkey)
      ensures testkey ==> signature.Some? && signature.value < |sigs| && sigs[signature.value].testkey
    {
      hide SigOk, CanonOk, Genuine, TooShort, FirstPassing, Ran, RanSig, SigsOk, BodiesDone;
      var c := Choose(answers);
      if c == |sigs| {
        c := FirstNotIgnored();
        if c == |sigs| {
          return NoSig, false;
        }
      } else if FirstPassing(old(sigs)) == |sigs| {
        OneStop(lib, canons, old(sigs), answers, c);
      }
      signature := Some(c);
      r := Result(sigs[c]);
      testkey := r != CantVerify && sigs[c].testkey;
      if r == StatOk {
        OnlyPassing(c);
        ItIsGenuine(c);
      }
      assert !sigs[c].ignored;
      assert Chosen(lib, canons, old(sigs), answers, c, sigs[c]);
    }

    method FirstNotIgnored() returns (c: nat)
      ensures c <= |sigs| && (c < |sigs| ==> !sigs[c].ignored) && forall j :: 0 <= j < c ==> sigs[j].ignored
    {
      c := 0;
      while c < |sigs| && sigs[c].ignored
        invariant c <= |sigs| && forall j :: 0 <= j < c ==> sigs[j].ignored
      {
        c := c + 1;
      }
    }

    /** What dkim_eom returns for the signature it has settled on. */
    method Result(s: SigInfo) returns (r: Stat)
      ensures ResultFor(s, r)
      ensures r == match s.error
                   case ErrNoKey => NoKey
                   case ErrKeyFail => KeyFail
                   case ErrRevoked => Revoked
                   case ErrBadSig => BadSig
                   case ErrOk => if s.passed && s.bh != Mismatch then StatOk else BadSig
                   case ErrUnknown => if s.passed && s.bh != Mismatch then StatOk else BadSig
                   case _ => CantVerify
    {
      match s.error {
      case ErrOk =>
      case ErrUnknown =>
      case ErrKeyFail =>
      case ErrBadSig =>
      case ErrRevoked =>
      case ErrNoKey =>
      case _ => return CantVerify;
      }
      r := StatOk;
      if s.error == ErrNoKey {
        r := NoKey;
      } else if s.error == ErrKeyFail {
        r := KeyFail;
      } else if s.error == ErrRevoked {
        r := Revoked;
      } else if !s.passed {
        r := BadSig;
      } else if s.bh == Mismatch {
        r := BadSig;
      } else if s.error == ErrBadSig {
        r := BadSig;
      }
    }

    /** A signature that has passed and whose error is 0 or unknown, at the end, is the first that passes. */
    lemma OnlyPassing(c: nat)
      requires Valid() && c < |sigs| && !sigs[c].ignored && sigs[c].passed && sigs[c].bh != Mismatch
      requires sigs[c].error == ErrOk || sigs[c].error == ErrUnknown
      requires c == FirstPassing(sigs) || (FirstPassing(sigs) == |sigs| && (sigs[c].error != ErrUnknown || !sigs[c].passed))
      ensures c == FirstPassing(sigs) && sigs[c].error == ErrOk && sigs[c].bh == Match
    {
      hide HeadersSigned, BodyMatches, CanonsFit;
      assert SigOk(lib, canons, bodydone, sigs[c]);
    }

    lemma ItIsGenuine(c: nat)
      requires Valid() && Marked() && c < |sigs| && Passing(sigs[c]) && sigs[c].error == ErrOk
      ensures Genuine(lib, canons, chunks, sigs[c])
    {
      var s := sigs[c];
      assert SigOk(lib, canons, bodydone, s) && CanonOk(lib, chunks, bodydone, canons[s.bodycanon]);
    }

    /** Every signature whose l= is beyond the end of the body is marked. */
    ghost predicate Marked()
      reads this
    {
      AllMarked(canons, sigs)
    }
  }

  lemma {:induction false} FirstIs(sigs: seq<SigInfo>, c: nat)
    requires c <= |sigs| && (c < |sigs| ==> Passing(sigs[c])) && forall i :: 0 <= i < c ==> !Passing(sigs[i])
    ensures FirstPassing(sigs) == c
  {
    if c > 0 {
      FirstIs(sigs[1..], c - 1);
    }
  }

  lemma {:induction false} FirstUnless(sigs: seq<SigInfo>)
    ensures FirstPassing(sigs) == |sigs| <==> forall i :: 0 <= i < |sigs| ==> !Passing(sigs[i])
  {
    var c := FirstPassing(sigs);
    assert c < |sigs| ==> Passing(sigs[c]);
  }

  lemma RanNone(lib: Lib, canons: seq<CanonState>, sigs: seq<SigInfo>, answers: nat -> Answer)
    requires SigsOk(lib, canons, true, sigs) && BodiesDone(canons, true)
    ensures Ran(lib, canons, sigs, answers, 0) == sigs
  {
  }

  lemma RanOne(lib: Lib, canons: seq<CanonState>, sigs: seq<SigInfo>, answers: nat -> Answer, n: nat)
    requires n < |sigs| && SigsOk(lib, canons, true, sigs) && BodiesDone(canons, true)
    ensures var before := Ran(lib, canons, sigs, answers, n);
            Ran(lib, canons, sigs, answers, n + 1) ==
            if sigs[n].ignored then before else before[n := Processed(lib, canons, true, before, n, answers(n)).s]
    ensures Ran(lib, canons, sigs, answers, n)[n] == sigs[n]
    ensures RanSig(lib, canons, sigs, answers, n) == Ran(lib, canons, sigs, answers, n + 1)[n]
  {
    hide SigOk, Processed;
  }

  /** The first of those that pass when they are run. */
  lemma SomeStop(lib: Lib, canons: seq<CanonState>, sigs: seq<SigInfo>, answers: nat -> Answer, i: nat) returns (c: nat)
    requires i < |sigs| && SigsOk(lib, canons, true, sigs) && BodiesDone(canons, true)
    requires Passing(RanSig(lib, canons, sigs, answers, i))
    ensures c <= i && Stops(lib, canons, sigs, answers, c)
  {
    hide SigsOk, RanSig, BodiesDone, Passing;
    c := 0;
    while !Passing(RanSig(lib, canons, sigs, answers, c))
      invariant c <= i && forall j :: 0 <= j < c ==> !Passing(RanSig(lib, canons, sigs, answers, j))
      decreases i - c
    {
      c := c + 1;
    }
  }

  lemma OneStop(lib: Lib, canons: seq<CanonState>, sigs: seq<SigInfo>, answers: nat -> Answer, c: nat)
    requires SigsOk(lib, canons, true, sigs) && BodiesDone(canons, true) && Stops(lib, canons, sigs, answers, c)
    ensures forall d :: Stops(lib, canons, sigs, answers, d) ==> d == c
  {
    hide SigOk, RanSig;
  }

  /** Processed before the end of the message, and good. */
  ghost predicate GoodNow(lib: Lib, canons: seq<CanonState>, s: SigInfo) {
    !s.ignored && s.error == ErrUnknown && s.processed && s.tags.Some? && CanonsFit(canons, s) && BodyMatches(lib, canons, s)
  }

  /** What running a signature at the end of the message comes to. */
  lemma RunMeans(lib: Lib, canons: seq<CanonState>, sigs: seq<SigInfo>, answers: nat -> Answer, c: nat)
    requires SigsOk(lib, canons, true, sigs) && BodiesDone(canons, true) && c < |sigs| && !Passing(sigs[c])
    ensures var s := RanSig(lib, canons, sigs, answers, c);
            && (Passing(s) <==> !sigs[c].ignored && sigs[c].error == ErrUnknown && s.passed &&
                                sigs[c].tags.Some? && CanonsFit(canons, sigs[c]) && BodyMatches(lib, canons, sigs[c]))
            && (Passing(s) ==> s.tags == sigs[c].tags && (s.error == ErrOk <==> NothingWrong(lib, s)))
            && (sigs[c].processed && Passing(s) ==> s.error == ErrOk)
            && (GoodNow(lib, canons, sigs[c]) ==> Passing(s))
  {
    hide Processed, Ran, RanSig, AfterAt, Fold, Encode, SigsOk;
    RanOne(lib, canons, sigs, answers, c);
    ProcessedMeans(lib, canons, true, Ran(lib, canons, sigs, answers, c), c, answers(c));
    assert SigOk(lib, canons, true, sigs[c]) && SigOk(lib, canons, true, RanSig(lib, canons, sigs, answers, c)) by {
      SigsEach(lib, canons, sigs, c);
      SigsEach(lib, canons, Ran(lib, canons, sigs, answers, c + 1), c);
    }
  }

  lemma SigsEach(lib: Lib, canons: seq<CanonState>, sigs: seq<SigInfo>, c: nat)
    requires SigsOk(lib, canons, true, sigs) && c < |sigs|
    ensures SigOk(lib, canons, true, sigs[c])
  {
  }

  /** When it is run in its turn, the signature passes, and nothing is found wrong with it. */
  ghost predicate GoodInTurn(lib: Lib, canons: seq<CanonState>, sigs: seq<SigInfo>, answers: nat -> Answer, i: nat)
    requires i < |sigs| && SigsOk(lib, canons, true, sigs) && BodiesDone(canons, true)
  {
    var s := RanSig(lib, canons, sigs, answers, i);
    Passing(s) && s.error == ErrOk
  }

  /** Signature i is good, and nothing passes yet. It is missed exactly when the first signature that passes, on being
      run only now, comes before it and is found to be wrong after all. */
  lemma GoodIsMissed(lib: Lib, canons: seq<CanonState>, sigs: seq<SigInfo>, answers: nat -> Answer, i: nat)
    requires SigsOk(lib, canons, true, sigs) && BodiesDone(canons, true) && FirstPassing(sigs) == |sigs|
    requires i < |sigs| && GoodInTurn(lib, canons, sigs, answers, i)
    ensures !Accepts(lib, canons, sigs, answers) <==>
            exists c :: 0 <= c < i && Stops(lib, canons, sigs, answers, c) && !sigs[c].processed &&
                        RanSig(lib, canons, sigs, answers, c).tags.Some? &&
                        !NothingWrong(lib, RanSig(lib, canons, sigs, answers, c))
  {
    hide SigOk, RanSig, SigsOk, BodiesDone, BodyMatches, CanonsFit, FirstPassing, NothingWrong, Stops;
    FirstUnless(sigs);
    var c := SomeStop(lib, canons, sigs, answers, i);
    OneStop(lib, canons, sigs, answers, c);
    StopsAt(lib, canons, sigs, answers, c);
    RunMeans(lib, canons, sigs, answers, c);
    assert Stops(lib, canons, sigs, answers, c);
  }

  /** A signature processed before the end of the message, and good, is good in its turn. */
  lemma GoodStays(lib: Lib, canons: seq<CanonState>, sigs: seq<SigInfo>, answers: nat -> Answer, i: nat)
    requires SigsOk(lib, canons, true, sigs) && BodiesDone(canons, true)
    requires i < |sigs| && !Passing(sigs[i]) && GoodNow(lib, canons, sigs[i])
    ensures GoodInTurn(lib, canons, sigs, answers, i)
  {
    hide SigOk, RanSig, SigsOk, BodiesDone, BodyMatches, CanonsFit;
    RunMeans(lib, canons, sigs, answers, i);
  }

  /** The verdict is good exactly when some signature is good in its turn and none before it passes and is wrong. */
  lemma AcceptsInTurn(lib: Lib, canons: seq<CanonState>, sigs: seq<SigInfo>, answers: nat -> Answer)
    requires SigsOk(lib, canons, true, sigs) && BodiesDone(canons, true) && FirstPassing(sigs) == |sigs|
    ensures Accepts(lib, canons, sigs, answers) <==>
            exists i :: 0 <= i < |sigs| && GoodInTurn(lib, canons, sigs, answers, i) &&
                        forall c :: 0 <= c < i ==> !Passing(RanSig(lib, canons, sigs, answers, c))
  {
    hide SigOk, RanSig, SigsOk, BodiesDone, FirstPassing;
    if i :| 0 <= i < |sigs| && GoodInTurn(lib, canons, sigs, answers, i) &&
            forall c :: 0 <= c < i ==> !Passing(RanSig(lib, canons, sigs, answers, c)) {
      assert Stops(lib, canons, sigs, answers, i);
    }
    if Accepts(lib, canons, sigs, answers) {
      var c :| Stops(lib, canons, sigs, answers, c) && RanSig(lib, canons, sigs, answers, c).error == ErrOk;
      assert GoodInTurn(lib, canons, sigs, answers, c);
    }
  }

  lemma StopsAt(lib: Lib, canons: seq<CanonState>, sigs: seq<SigInfo>, answers: nat -> Answer, c: nat)
    requires SigsOk(lib, canons, true, sigs) && BodiesDone(canons, true) && Stops(lib, canons, sigs, answers, c)
    ensures c < |sigs| && Passing(RanSig(lib, canons, sigs, answers, c))
  {
  }

  /** What the caller may conclude from DKIM_STAT_OK. */
  ghost predicate Genuine(lib: Lib, canons: seq<CanonState>, chunks: seq<string>, s: SigInfo) {
    && !s.ignored && s.passed && s.bh == Match && s.error == ErrOk
    && s.tags.Some? && CanonsFit(canons, s)
    && HeadersSigned(lib, canons, s) && BodyMatches(lib, canons, s) && NothingWrong(lib, s)
    && var t := s.tags.value;
       var text := lib.canonize(t.bodymode, t.length, chunks);
       t.bh == Encode(lib.hash(t.alg, text)) && (t.length == -1 || t.length <= |text|)
  }

  predicate SharesWith(c: CanonState, mode: Mode, alg: Alg, length: int) {
    !c.hdr && c.alg == alg && c.mode == mode && c.length == length
  }

  // ---------- The limit of a signature ----------

  /** What the l= of a signature makes of the limit, if it was looked at. */
  function LengthRead(checked: Checked): (l: Option<int>) {
    match checked
    case Refused(_, l) => l
    case Accepted(t) => if t.length == -1 then None else Some(t.length)
  }

  /** The limit in force after the first n signatures. */
  function LimitAfter(sets: seq<Checked>, n: nat): (limit: int)
    requires n <= |sets|
  {
    if n == 0 then -1
    else
      var l := LengthRead(sets[n - 1]);
      if l.Some? then l.value else LimitAfter(sets, n - 1)
  }

  lemma LimitFirst(sets: seq<Checked>)
    ensures LimitAfter(sets, 0) == -1
  {
  }

  lemma LimitNext(sets: seq<Checked>, n: nat)
    requires n < |sets|
    ensures var l := LengthRead(sets[n]); LimitAfter(sets, n + 1) == if l.Some? then l.value else LimitAfter(sets, n)
  {
  }

  /** Signature j, before signature i, has left its limit to it: no other l= was looked at in between. */
  predicate LeavesLimit(sets: seq<Checked>, j: nat, i: nat)
    requires j < i <= |sets|
  {
    Reads(sets[j]) && GivenLength(sets[j]) != -1 && forall k :: j < k < i ==> !Reads(sets[k])
  }

  /** The l= of a signature was looked at: it has been accepted and has one, or it was refused after that. */
  predicate Reads(checked: Checked) {
    (checked.Refused? && checked.l.Some?) || (checked.Accepted? && checked.tags.length != -1)
  }

  function GivenLength(checked: Checked): (l: int)
    requires Reads(checked)
  {
    if checked.Refused? then checked.l.value else checked.tags.length
  }

  lemma ReadsIs(checked: Checked)
    ensures LengthRead(checked) == if Reads(checked) then Some(GivenLength(checked)) else None
  {
  }

  /** There is a limit exactly when some signature has left one. */
  lemma {:induction false} LimitLeft(sets: seq<Checked>, n: nat)
    requires n <= |sets|
    ensures LimitAfter(sets, n) != -1 <==> exists j :: 0 <= j < n && LeavesLimit(sets, j, n)
    ensures forall j :: 0 <= j < n && LeavesLimit(sets, j, n) ==> LimitAfter(sets, n) == GivenLength(sets[j])
  {
    hide LengthRead, Reads, GivenLength;
    if n > 0 {
      LimitLeft(sets, n - 1);
      ReadsIs(sets[n - 1]);
      var l := LengthRead(sets[n - 1]);
      if l.Some? {
        forall j | 0 <= j < n - 1
          ensures !LeavesLimit(sets, j, n)
        {
        }
        assert l.value != -1 ==> LeavesLimit(sets, n - 1, n);
      } else {
        forall j | 0 <= j < n - 1
          ensures LeavesLimit(sets, j, n) <==> LeavesLimit(sets, j, n - 1)
        {
        }
        if LimitAfter(sets, n - 1) != -1 {
          var j :| 0 <= j < n - 1 && LeavesLimit(sets, j, n - 1);
          assert LeavesLimit(sets, j, n);
        }
      }
    }
  }

  /** A signature is verified with the limit of its own l=, or with none if it has no l=, exactly when it has one or no
      signature before it has left one. */
  lemma OwnLimit(sets: seq<Checked>, i: nat)
    requires i < |sets| && sets[i].Accepted?
    ensures LimitAfter(sets, i + 1) == sets[i].tags.length <==>
            sets[i].tags.length != -1 || !exists j :: 0 <= j < i && LeavesLimit(sets, j, i)
  {
    LimitLeft(sets, i);
  }

  /** A signature as the setup leaves it, with the limit in force. */
  predicate FreshFrom(checked: Checked, limit: int, s: SigInfo) {
    && !s.ignored && !s.processed && !s.passed && s.key.None?
    && match checked
       case Refused(code, _) => s.tags.None? && s.error == ErrSetup(code)
       case Accepted(t) => s.tags == Some(t.(length := limit)) && s.error == ErrUnknown && s.bh == Untested
  }

  datatype Call =
    | CallHeader(malformed: bool, found: Option<Checked>) | CallEoh(env: Env) | CallBody(chunk: string) | CallChunk
    | CallProcess(i: nat, a: Answer) | CallIgnore(i: nat) | CallEom(from: bool, acts: seq<Act>, reply: Stat, answers: nat -> Answer)

  /** What was known when dkim_eom returned DKIM_STAT_OK. */
  datatype Acceptance = AcceptedAs(canons: seq<CanonState>, chunks: seq<string>, sig: SigInfo)

  /** Any calls in any order: DKIM_STAT_OK comes at most once, and only for a signature that is genuine. */
  method Session(lib: Lib, calls: seq<Call>) returns (accepted: seq<Acceptance>)
    ensures |accepted| <= 1
    ensures forall a :: a in accepted ==> Genuine(lib, a.canons, a.chunks, a.sig)
  {
    hide Genuine, FirstPassing;
    var v := new Verifier(lib);
    accepted := [];
    for k := 0 to |calls|
      invariant v.Valid() && v.lib == lib
      invariant |accepted| <= 1 && (accepted != [] ==> v.state >= EOM2)
      invariant forall a :: a in accepted ==> Genuine(lib, a.canons, a.chunks, a.sig)
    {
      match calls[k]
      case CallHeader(malformed, found) => var _ := v.Header(malformed, found);
      case CallEoh(env) => var _, _ := v.Eoh(env);
      case CallBody(chunk) => var _ := v.Body(chunk);
      case CallChunk => v.Chunk();
      case CallProcess(i, a) =>
        if i < |v.sigs| {
          var _ := v.Process(i, a);
        }
      case CallIgnore(i) =>
        if i < |v.sigs| {
          v.Ignore(i);
        }
      case CallEom(from, acts, reply, answers) =>
        var r, _ := v.Eom(from, acts, reply, answers);
        if r == StatOk {
          accepted := accepted + [AcceptedAs(v.canons, v.chunks, v.sigs[FirstPassing(v.sigs)])];
        }
    }
  }
}
