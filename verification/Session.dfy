/** The two programs from their start to the client's last query
    (src/server_main.cpp, src/client_main.cpp). */
module Session {
  import opened ModArith
  import opened Words
  import opened Options
  import opened Ring
  import opened Encoding
  import opened Prf
  import opened Hints
  import opened Offline
  import opened Answering
  import opened Protocol
  import opened Runs
  import opened Setup
  import opened Server
  import opened ClientObject

  /** The client: Offline, then a cache of count encryptions of zero, then the
      queries.  Every answer is the database entry asked for, and a run no longer
      than the cache never finds it exhausted. */
  method RunClient(pp: Params, f: PrfFn, server: OneSVServer, start: Encryption, zero: Encryption, count: nat,
                   rs: seq<Request>, ghost w: World) returns (os: seq<Outcome>)
    requires w.Valid() && w.pp == pp && w.f == f && Budget(w) && Fair(pp, f)
    requires server.Serves(w) && server.encryptedDb == w.encDB
    requires Encrypts(pp, w.sk, start, w.encBound) && Encrypts(pp, w.sk, zero, w.encBound)
    requires RequestsOk(w, rs)
    ensures |os| <= |rs|
    ensures forall i :: 0 <= i < |os| && os[i].Answered? ==> os[i].value == Wanted(w, rs[i].query)
    ensures |os| < |rs| ==> os != [] && os[|os| - 1].Stops()
    ensures |rs| <= count ==> ZerosExhausted !in os
  {
    hide Run, Step, OfflineDone, EncodesWithin, TableOk, Fair;
    var client := new OneSVClient(pp, f);
    var zeros := seq(pp.Slots(), i requires 0 <= i => start(i, Zeros(pp)));
    forall i | 0 <= i < |zeros|
      ensures w.Holds(zeros[i], 0, w.encBound)
    {
      EncryptedZero(w, start, i);
    }
    ghost var draws := client.Offline(server, zeros, w);
    client.PrecomputeEncZeros(count, zero, w);
    ghost var s := client.Now();
    os := client.RunOnline(rs, server, w);
    RunCorrect(w, s, rs);
    if |rs| <= count {
      ZerosSuffice(w, s, rs);
    }
  }

  /** Requests for indices of the database, with noise the budget allows for. */
  ghost predicate Answerable(pp: Params, size: nat, noiseBound: nat, rs: seq<Request>) {
    forall i :: 0 <= i < |rs| ==>
      rs[i].query < size && rs[i].mask < pp.q && -(noiseBound as int) <= Times(pp.p, rs[i].noise) <= noiseBound
  }

  /** Both programs: the server encrypts its database, the client streams it, and
      every query travels packed and is answered.  Whatever an answer returns is the
      database's entry at that index. */
  method RunProgram(pp: Params, f: PrfFn, db: array<U64>, sk: Poly, scale: nat -> int, wire: Serialiser,
                    slotCount: nat, database: Encryption, start: Encryption, zero: Encryption,
                    count: nat, rs: seq<Request>, ghost encBound: nat, ghost scaleBound: nat, ghost noiseBound: nat)
    returns (os: Option<seq<Outcome>>)
    requires pp.Valid() && pp.q <= 0x4000_0000_0000_0000 && IsPoly(sk, pp.n, pp.q) && Fair(pp, f)
    requires db.Length == Times(pp.partNum, pp.partSize) && forall i :: 0 <= i < db.Length ==> db[i] < pp.p
    requires wire.Valid(pp.n, pp.q) && pp.p <= encBound
    requires Encrypts(pp, sk, database, encBound)
    requires Encrypts(pp, sk, start, encBound) && Encrypts(pp, sk, zero, encBound)
    requires Scales(pp, scale, scaleBound)
    requires 2 * (Times(Half(pp) + 2, encBound) + encBound + scaleBound + noiseBound) < pp.q
    requires Answerable(pp, db.Length, noiseBound, rs)
    ensures os.None? <==> slotCount < pp.partSize
    ensures os.Some? ==> |os.value| <= |rs|
    ensures os.Some? ==>
      forall i :: 0 <= i < |os.value| && os.value[i].Answered? ==> os.value[i].value == db[rs[i].query]
    ensures os.Some? && |os.value| < |rs| ==> os.value != [] && os.value[|os.value| - 1].Stops()
    ensures os.Some? && |rs| <= count ==> ZerosExhausted !in os.value
  {
    hide EncodesWithin, Encrypts, Scales, Fair, Wanted;
    var server := new OneSVServer(pp, db, sk, scale, wire);
    var ok := server.PreprocessDatabase(slotCount, database);
    if !ok {
      return None;
    }
    ghost var w := WorldOf(pp, f, db[..], sk, server.encryptedDb, scale, encBound, scaleBound, noiseBound);
    PreprocessedWorld(w, db[..], database);
    forall i | 0 <= i < |rs|
      ensures RequestOk(w, rs[i]) && Wanted(w, rs[i].query) == db[rs[i].query]
    {
      WantedIsEntry(w, db[..], rs[i].query);
    }
    var outcomes := RunClient(pp, f, server, start, zero, count, rs, w);
    return Some(outcomes);
  }
}
