/**
 A lease file that grows past what the loader takes: a run of successful requests after which the
 broker never starts again.
 */
module BrokerOutage {
  import opened Strings
  import opened LeaseKeys
  import opened Decimal
  import opened Requests
  import opened Base64
  import opened Nonces
  import opened StateCodec
  import opened Broker
  import opened BrokerInvariant
  import opened BrokerRecovery
  import opened BrokerAdmission

  /** Down over a file that the start refuses: only tokens are born or die from then on. */
  lemma {:induction false} StaysDown(c: System, s: State, run: Run)
    requires !s.up && c.reload(s.disk).None? && Legal(c, s, run)
    ensures !After(c, s, run).up && After(c, s, run).disk == s.disk
    ensures !Enabled(c, After(c, s, run), Restart)
  {
    if run != [] {
      StaysDown(c, s, run[..|run| - 1]);
    }
  }

  lemma {:induction false} FileIsValid(s: State)
    requires Core(s)
    ensures ValidLeases(s.disk)
  {
  }

  lemma {:induction false} RestartLoads(config: Config, read: Reader, s: State)
    requires HexDigest(config.digest) && ReadsOwn(read) && ValidLeases(s.disk) && !s.up
    ensures Enabled(Actual(config, read), s, Restart) <==> Loadable(s.disk)
  {
    ReloadWellFormed(config, read, s.disk);
  }

  /** A start succeeds exactly over the files that are not too long, whatever has happened before. */
  lemma {:induction false} RestartExactly(config: Config, read: Reader, run: Run)
    requires HexDigest(config.digest) && ReadsOwn(read) && Legal(Actual(config, read), INITIAL, run)
    requires !After(Actual(config, read), INITIAL, run).up
    ensures Enabled(Actual(config, read), After(Actual(config, read), INITIAL, run), Restart)
       <==> Loadable(After(Actual(config, read), INITIAL, run).disk)
  {
    var s := After(Actual(config, read), INITIAL, run);
    ReloadWellFormed(config, read, map[]);
    ReachableIsReady(Actual(config, read), run);
    FileIsValid(s);
    RestartLoads(config, read, s);
  }

  // ----- Filling the file -----

  /** Valid issue requests for distinct leases, with distinct nonces, and an accessor of full length for each. */
  datatype Workload = Workload(requests: seq<Request>, accessors: seq<Accessor>, now: int)

  function UsedKey(config: Config, request: Request): string {
    config.digest(Preimage(request.host, request.nonce))
  }

  function LeaseKeysOf(config: Config, requests: seq<Request>): seq<string> {
    seq(|requests|, i requires 0 <= i < |requests| => KeyOf(config, requests[i]))
  }

  function NonceKeysOf(config: Config, requests: seq<Request>): seq<string> {
    seq(|requests|, i requires 0 <= i < |requests| => UsedKey(config, requests[i]))
  }

  predicate AllDifferent(s: seq<string>) {
    forall i, j | 0 <= i < j < |s| :: s[i] != s[j]
  }

  lemma {:induction false} NextIsNew(s: seq<string>, n: nat)
    requires AllDifferent(s) && n < |s|
    ensures s[n] !in Elements(s[..n]) && Elements(s[..n + 1]) == Elements(s[..n]) + {s[n]}
  {
    assert s[..n + 1] == s[..n] + [s[n]];
  }

  ghost predicate Suitable(config: Config, load: Workload) {
    && |load.requests| == |load.accessors| <= config.maximum
    && (forall i | 0 <= i < |load.requests| ::
          load.requests[i].operation.Issue? && Valid(config, load.requests[i], load.now))
    && (forall i | 0 <= i < |load.accessors| ::
          ValidOpaqueSecret(load.accessors[i], MAX_ACCESSOR_BYTES) && |load.accessors[i]| == MAX_ACCESSOR_BYTES)
    && AllDifferent(LeaseKeysOf(config, load.requests)) && AllDifferent(NonceKeysOf(config, load.requests))
    && AllDifferent(load.accessors)
  }

  ghost function Keys(config: Config, load: Workload, n: nat): set<string>
    requires n <= |load.requests|
  {
    Elements(LeaseKeysOf(config, load.requests)[..n])
  }

  ghost function NonceKeys(config: Config, load: Workload, n: nat): set<string>
    requires n <= |load.requests|
  {
    Elements(NonceKeysOf(config, load.requests)[..n])
  }

  ghost predicate FileFilled(c: System, load: Workload, s: State, n: nat)
    requires n <= |load.requests| == |load.accessors|
  {
    && s.disk.Keys == Keys(c.config, load, n) && |s.disk| == n
    && s.created.Keys <= Elements(load.accessors[..n])
  }

  ghost predicate CacheFilled(c: System, load: Workload, s: State, n: nat)
    requires n <= |load.requests|
  {
    s.nonces.Keys <= NonceKeys(c.config, load, n) && |s.nonces| <= n
  }

  ghost predicate AllServed(s: State, n: nat) {
    && s.up && s.lock.None? && (forall id | id in s.threads :: id < n)
    && |s.history| == n && forall i | 0 <= i < n :: s.history[i].reply == Some(OK)
  }

  /** Up and idle, with the first `n` leases in the file and their `n` successes in the history. */
  ghost predicate Filled(c: System, load: Workload, s: State, n: nat)
    requires n <= |load.requests| == |load.accessors|
  {
    FileFilled(c, load, s, n) && CacheFilled(c, load, s, n) && AllServed(s, n)
  }

  lemma {:induction false} FreshForNext(c: System, load: Workload, s: State, n: nat)
    requires Suitable(c.config, load) && n < |load.requests|
    requires s.created.Keys <= Elements(load.accessors[..n])
    ensures FreshAccessor(s, load.accessors[n])
    ensures s.created.Keys + {load.accessors[n]} <= Elements(load.accessors[..n + 1])
    ensures KeyOf(c.config, load.requests[n]) !in Keys(c.config, load, n)
    ensures Keys(c.config, load, n + 1) == Keys(c.config, load, n) + {KeyOf(c.config, load.requests[n])}
  {
    NextIsNew(load.accessors, n);
    NextIsNew(LeaseKeysOf(c.config, load.requests), n);
  }

  lemma {:induction false} NonceForNext(c: System, load: Workload, entries: Entries, n: nat)
    requires Suitable(c.config, load) && n < |load.requests|
    requires entries.Keys <= NonceKeys(c.config, load, n) && |entries| <= n
    ensures Accepts(entries, c.config.maximum, UsedKey(c.config, load.requests[n]), load.now)
    ensures var used := Used(entries, c.config.ttl, c.config.maximum, UsedKey(c.config, load.requests[n]), load.now);
            used.Keys <= NonceKeys(c.config, load, n + 1) && |used| <= n + 1
  {
    NextIsNew(NonceKeysOf(c.config, load.requests), n);
    UsedByOne(entries, c.config.ttl, c.config.maximum, UsedKey(c.config, load.requests[n]), load.now);
  }

  lemma {:induction false} UsedByOne(entries: Entries, ttl: int, maximum: int, key: string, now: int)
    requires key !in entries && |entries| < maximum
    ensures Accepts(entries, maximum, key, now)
    ensures Used(entries, ttl, maximum, key, now).Keys <= entries.Keys + {key}
    ensures |Used(entries, ttl, maximum, key, now)| <= |entries| + 1
  {
    PrunedNoLarger(entries, now);
    Enlarged(Pruned(entries, now), key, now + ttl);
  }

  lemma {:induction false} Enlarged(entries: Entries, key: string, expires: int)
    ensures |entries[key := expires]| <= |entries| + 1
  {
    assert entries[key := expires].Keys == entries.Keys + {key};
    assert |entries[key := expires].Keys| == |entries[key := expires]| && |entries.Keys| == |entries|;
  }

  lemma {:induction false} OneMoreKey(before: Leases, after: Leases, key: string)
    requires key !in before && key in after && after - {key} == before - {key}
    ensures after.Keys == before.Keys + {key} && |after| == |before| + 1
  {
    assert before - {key} == before;
    assert after.Keys == (after - {key}).Keys + {key};
    assert |after.Keys| == |after| && |before.Keys| == |before|;
  }

  /** One start, and then one successful issue after the other. */
  lemma {:induction false} FillUp(c: System, load: Workload, n: nat) returns (run: Run)
    requires c.WellFormed() && Suitable(c.config, load) && n <= |load.requests| && c.reload(map[]) == Some(map[])
    ensures Legal(c, INITIAL, run) && FaultFreeRun(run) && Filled(c, load, After(c, INITIAL, run), n)
    decreases n
  {
    if n == 0 {
      run := Extend(c, INITIAL, [], Restart);
      assert After(c, INITIAL, run) == RestartStep(c, INITIAL) == INITIAL.(up := true);
    } else {
      var sofar := FillUp(c, load, n - 1);
      run := FillOne(c, load, sofar, n - 1);
    }
  }

  lemma {:induction false} FillOne(c: System, load: Workload, sofar: Run, n: nat) returns (run: Run)
    requires c.WellFormed() && Suitable(c.config, load) && n < |load.requests|
    requires Legal(c, INITIAL, sofar) && FaultFreeRun(sofar) && Filled(c, load, After(c, INITIAL, sofar), n)
    ensures Legal(c, INITIAL, run) && FaultFreeRun(run) && Filled(c, load, After(c, INITIAL, run), n + 1)
  {
    var s := After(c, INITIAL, sofar);
    FreshForNext(c, load, s, n);
    NonceForNext(c, load, s.nonces, n);
    InvariantInitially(c);
    var admitted := ArrivalAdmits(c, INITIAL, sofar, n, load.requests[n], load.now);
    var waiting := After(c, INITIAL, admitted);
    AdmittedParts(c, s, n, load.requests[n], load.now);
    run := AdmittedRequestSucceeds(c, INITIAL, admitted, n, load.accessors[n]);
    FilledByOne(c, load, s, waiting, After(c, INITIAL, run), n);
  }

  lemma {:induction false} FileByOne(c: System, load: Workload, s: State, served: State, n: nat)
    requires Suitable(c.config, load) && n < |load.requests| && FileFilled(c, load, s, n)
    requires var key := KeyOf(c.config, load.requests[n]); key in served.disk && served.disk - {key} == s.disk - {key}
    requires served.created.Keys <= s.created.Keys + {load.accessors[n]}
    ensures FileFilled(c, load, served, n + 1)
  {
    FreshForNext(c, load, s, n);
    OneMoreKey(s.disk, served.disk, KeyOf(c.config, load.requests[n]));
  }

  lemma {:induction false} ServedByOne(s: State, waiting: State, served: State, n: nat, operation: Operation, key: string, a: Accessor)
    requires AllServed(s, n) && operation.Issue?
    requires waiting.history == s.history && waiting.threads - {n} == s.threads - {n}
    requires Success(waiting, served, n, operation, key) && Aside(waiting, served, n, a)
    ensures AllServed(served, n + 1)
  {
    forall id | id in served.threads ensures id < n + 1 {
      if id != n { assert id in served.threads - {n} && id in s.threads - {n}; }
    }
    forall i | 0 <= i < n ensures served.history[i].reply == Some(OK) { assert served.history[i] == s.history[i]; }
  }

  /** Admission uses a nonce and adds a thread. */
  lemma {:induction false} AdmittedParts(c: System, s: State, id: Id, request: Request, now: int)
    ensures var next := Admitted(c, s, id, request, now);
            && next.disk == s.disk && next.created == s.created && next.history == s.history
            && next.threads - {id} == s.threads - {id}
            && next.nonces == Used(s.nonces, c.config.ttl, c.config.maximum, UsedKey(c.config, request), now)
  {
  }

  lemma {:induction false} FilledByOne(c: System, load: Workload, s: State, waiting: State, served: State, n: nat)
    requires Suitable(c.config, load) && n < |load.requests| && Filled(c, load, s, n)
    requires waiting.disk == s.disk && waiting.created == s.created && waiting.history == s.history
    requires waiting.threads - {n} == s.threads - {n} && CacheFilled(c, load, waiting, n + 1)
    requires Success(waiting, served, n, load.requests[n].operation, KeyOf(c.config, load.requests[n]))
    requires Aside(waiting, served, n, load.accessors[n])
    ensures Filled(c, load, served, n + 1)
  {
    FileByOne(c, load, s, served, n);
    ServedByOne(s, waiting, served, n, load.requests[n].operation, KeyOf(c.config, load.requests[n]), load.accessors[n]);
  }

  // ----- One process, and the end of it -----

  predicate Starts(run: Run) {
    exists i :: 0 <= i < |run| && run[i].Restart?
  }

  lemma {:induction false} StartUps(c: System, s: State, l: Label)
    requires Enabled(c, s, l) && FaultFree(l) && (s.up || l.Restart?)
    ensures Step(c, s, l).up && (l.Restart? ==> !s.up)
  {
    if s.up { UpStays(c, s, l); }
  }

  lemma {:induction false} UpOnceStarted(c: System, run: Run)
    requires Legal(c, INITIAL, run) && FaultFreeRun(run) && Starts(run)
    ensures After(c, INITIAL, run).up
  {
    var before, l := run[..|run| - 1], run[|run| - 1];
    assert run == before + [l];
    assert forall i | 0 <= i < |before| :: before[i] == run[i];
    RunStep(c, INITIAL, before, l);
    if Starts(before) { UpOnceStarted(c, before); }
    StartUps(c, After(c, INITIAL, before), l);
  }

  predicate OneProcess(run: Run) {
    forall i, j | 0 <= i < j < |run| :: !(run[i].Restart? && run[j].Restart?)
  }

  /** Without a crash there is at most one start. */
  lemma {:induction false} OneStart(c: System, run: Run)
    requires Legal(c, INITIAL, run) && FaultFreeRun(run)
    ensures OneProcess(run)
  {
    forall i, j | 0 <= i < j < |run| && run[i].Restart? ensures !run[j].Restart? {
      RunPrefix(c, INITIAL, run, j);
      assert run[..j][i] == run[i];
      UpOnceStarted(c, run[..j]);
    }
  }

  lemma {:induction false} RunPrefix(c: System, s: State, run: Run, n: nat)
    requires Legal(c, s, run) && n < |run|
    ensures Legal(c, s, run[..n]) && Enabled(c, After(c, s, run[..n]), run[n])
  {
    var before, l := run[..|run| - 1], run[|run| - 1];
    assert run == before + [l];
    RunStep(c, s, before, l);
    if n < |before| {
      RunPrefix(c, s, before, n);
      assert before[..n] == run[..n] && before[n] == run[n];
    }
  }

  lemma {:induction false} EmptyLoads(config: Config, read: Reader)
    requires HexDigest(config.digest) && ReadsOwn(read)
    ensures Actual(config, read).reload(map[]) == Some(map[])
  {
    ReloadWellFormed(config, read, map[]);
    EmptyLoadable();
  }

  ghost predicate OutOfService(c: System, s: State) {
    forall later | Legal(c, s, later) :: !After(c, s, later).up && !Enabled(c, After(c, s, later), Restart)
  }

  lemma {:induction false} Downfall(c: System, run: Run)
    requires Legal(c, INITIAL, run) && After(c, INITIAL, run).up && c.reload(After(c, INITIAL, run).disk).None?
    ensures Legal(c, INITIAL, run + [Crash]) && OutOfService(c, After(c, INITIAL, run + [Crash]))
  {
    RunStep(c, INITIAL, run, Crash);
    var s := After(c, INITIAL, run + [Crash]);
    forall later | Legal(c, s, later) ensures !After(c, s, later).up && !Enabled(c, After(c, s, later), Restart) {
      StaysDown(c, s, later);
    }
  }

  /**
   Main result: one process that serves 1024 issues for distinct leases, with accessors of the size
   the broker accepts, all successfully and without any fault, does not survive its next crash: no
   start ever succeeds again.
   */
  lemma {:induction false} OutageReachable(config: Config, read: Reader, load: Workload) returns (run: Run)
    requires HexDigest(config.digest) && ReadsOwn(read) && Suitable(config, load) && |load.requests| == 1024
    ensures var c := Actual(config, read);
            && Legal(c, INITIAL, run) && FaultFreeRun(run) && OneProcess(run)
            && Filled(c, load, After(c, INITIAL, run), 1024)
            && Legal(c, INITIAL, run + [Crash]) && OutOfService(c, After(c, INITIAL, run + [Crash]))
  {
    var c := Actual(config, read);
    ReloadWellFormed(config, read, map[]);
    EmptyLoads(config, read);
    run := FillUp(c, load, 1024);
    OneStart(c, run);
    ReachableIsReady(c, run);
    Refused(config, read, load, After(c, INITIAL, run));
    Downfall(c, run);
  }

  lemma {:induction false} Refused(config: Config, read: Reader, load: Workload, s: State)
    requires HexDigest(config.digest) && ReadsOwn(read) && Suitable(config, load) && |load.requests| == 1024
    requires Filled(Actual(config, read), load, s, 1024) && Core(s)
    ensures Actual(config, read).reload(s.disk).None?
  {
    ReloadWellFormed(config, read, s.disk);
    forall k | k in s.disk ensures |s.disk[k]| == MAX_ACCESSOR_BYTES && ValidEntry(k, s.disk[k]) {
      assert s.disk[k] in Elements(load.accessors[..1024]);
    }
    FullIsUnloadable(s.disk);
  }

  // ----- Such workloads exist -----

  /** Keys of nonces and of leases: texts of 32 hex digits, and numbers. */
  function SampleDigest(text: string): string {
    if |text| == 34 && forall i | 2 <= i < 34 :: HexDigit(text[i]) then seq(32, _ => 'b') + text[2..]
    else NumberedKey(if |text| >= 2 && AllDigits(text[2..]) then Decimal.Value(text[2..]) else 0)
  }

  function SampleConfig(): Config {
    Config({"p"}, 300, 1024, text => SampleDigest(text))
  }

  function SampleNonce(i: nat): string {
    NumberedKey(i)[32..]
  }

  function SampleRequest(i: nat): Request {
    Request(Issue(["p"], "f", "0", "0", "0400"), 1, "h", Decimal.Print(i), Some(0), SampleNonce(i))
  }

  function SampleAccessor(i: nat): Accessor {
    seq(4032, _ => 'x') + NumberedKey(i)
  }

  function SampleWorkload(): Workload {
    Workload(seq(1024, i requires 0 <= i < 1024 => SampleRequest(i)), seq(1024, i requires 0 <= i < 1024 => SampleAccessor(i)), 0)
  }

  lemma {:induction false} NumberedIsKey(n: nat)
    ensures LeaseKey(NumberedKey(n)) && forall i | 0 <= i < 64 :: 0x20 <= NumberedKey(n)[i] as int < 0x7f
  {
  }

  lemma {:induction false} SampleDigestHex()
    ensures HexDigest(SampleConfig().digest)
  {
    forall text ensures LeaseKey(SampleDigest(text)) {
      NumberedIsKey(if |text| >= 2 && AllDigits(text[2..]) then Decimal.Value(text[2..]) else 0);
      assert |text| == 34 ==> |text[2..]| == 32;
    }
  }

  lemma {:induction false} OneCharacterPath(c: char)
    requires NameCharacter(c) && c != '.'
    ensures Paths.SafePath([c])
  {
    var path := [c];
    assert path[1..] == "" && Paths.Split("") == [""];
    assert Paths.Split(path) == [[path[0]] + Paths.Split("")[0]] + Paths.Split("")[1..];
    assert [path[0]] + "" == path;
    assert Paths.Split(path) == [path];
    assert ByteLength(path) == ByteWidth(c) + ByteLength("");
    assert ValidName(path, 64);
  }

  lemma {:induction false} SampleFile()
    ensures FileAccepted(SampleRequest(0).operation) && PoliciesAccepted({"p"}, ["p"])
  {
    OneCharacterPath('f');
    assert Decimal.Value("0") == 0 by { assert "0"[..0] == []; }
    assert Paths.Unsigned("0") == "0" && Paths.Ownership("0");
  }

  /** The nonces are 32 characters of the alphabet, in which only the last four vary. */
  lemma {:induction false} SampleNonceValid(i: nat)
    requires i < 10000
    ensures DecodedLength(SampleNonce(i)) == Some(NONCE_BYTES)
    ensures UsedKey(SampleConfig(), SampleRequest(i)) == seq(32, _ => 'b') + SampleNonce(i)
  {
    NumberedIsKey(i);
    var nonce := SampleNonce(i);
    assert forall k | 0 <= k < 32 :: nonce[k] == NumberedKey(i)[32 + k];
    assert InAlphabet(nonce);
    AlphabetHasNoBreaks(nonce);
    WholeGroups(nonce, 8);
    var text := Preimage("h", nonce);
    assert text[2..] == nonce;
  }

  lemma {:induction false} SampleNoncesDiffer(i: nat, j: nat)
    requires i < j < 10000
    ensures SampleNonce(i) != SampleNonce(j)
  {
    PrintLength(i, 4);
    PrintLength(j, 4);
    NumberedKeysDiffer(i, j);
    assert NumberedKey(i)[..32] == NumberedKey(j)[..32];
    assert NumberedKey(i) == NumberedKey(i)[..32] + SampleNonce(i);
    assert NumberedKey(j) == NumberedKey(j)[..32] + SampleNonce(j);
  }

  lemma {:induction false} SampleValid(i: nat)
    requires i < 10000
    ensures Valid(SampleConfig(), SampleRequest(i), 0)
    ensures KeyOf(SampleConfig(), SampleRequest(i)) == NumberedKey(i)
  {
    PrintLength(i, 4);
    ValueOfPrint(i);
    assert Preimage("h", Decimal.Print(i))[2..] == Decimal.Print(i);
    SampleFile();
    SampleNonceValid(i);
    assert IsDigit(Decimal.Print(i)[0]);
  }

  lemma {:induction false} SampleAccessorValid(i: nat)
    ensures |SampleAccessor(i)| == MAX_ACCESSOR_BYTES && ValidOpaqueSecret(SampleAccessor(i), MAX_ACCESSOR_BYTES)
    ensures SampleAccessor(i)[4032..] == NumberedKey(i)
  {
    NumberedIsKey(i);
    AsciiLength(SampleAccessor(i));
  }

  lemma {:induction false} SampleDiffers(i: nat, j: nat)
    requires i < j < 10000
    ensures KeyOf(SampleConfig(), SampleRequest(i)) != KeyOf(SampleConfig(), SampleRequest(j))
    ensures UsedKey(SampleConfig(), SampleRequest(i)) != UsedKey(SampleConfig(), SampleRequest(j))
    ensures SampleAccessor(i) != SampleAccessor(j)
  {
    PrintLength(i, 4);
    PrintLength(j, 4);
    NumberedKeysDiffer(i, j);
    SampleValid(i);
    SampleValid(j);
    SampleAccessorValid(i);
    SampleAccessorValid(j);
    SampleNonceValid(i);
    SampleNonceValid(j);
    SampleNoncesDiffer(i, j);
    assert UsedKey(SampleConfig(), SampleRequest(i))[32..] == SampleNonce(i);
    assert UsedKey(SampleConfig(), SampleRequest(j))[32..] == SampleNonce(j);
  }

  lemma {:induction false} SampleLeasesDiffer()
    ensures AllDifferent(LeaseKeysOf(SampleConfig(), SampleWorkload().requests))
  {
    var keys := LeaseKeysOf(SampleConfig(), SampleWorkload().requests);
    forall i, j | 0 <= i < j < |keys| ensures keys[i] != keys[j] { SampleDiffers(i, j); }
  }

  lemma {:induction false} SampleUsesDiffer()
    ensures AllDifferent(NonceKeysOf(SampleConfig(), SampleWorkload().requests))
  {
    var keys := NonceKeysOf(SampleConfig(), SampleWorkload().requests);
    forall i, j | 0 <= i < j < |keys| ensures keys[i] != keys[j] { SampleDiffers(i, j); }
  }

  lemma {:induction false} SampleAccessorsDiffer()
    ensures AllDifferent(SampleWorkload().accessors)
  {
    var accessors := SampleWorkload().accessors;
    forall i, j | 0 <= i < j < |accessors| ensures accessors[i] != accessors[j] { SampleDiffers(i, j); }
  }

  lemma {:induction false} SampleSuitable()
    ensures Suitable(SampleConfig(), SampleWorkload()) && |SampleWorkload().requests| == 1024
  {
    var load := SampleWorkload();
    forall i | 0 <= i < 1024
      ensures load.requests[i].operation.Issue? && Valid(SampleConfig(), load.requests[i], load.now)
      ensures ValidOpaqueSecret(load.accessors[i], MAX_ACCESSOR_BYTES) && |load.accessors[i]| == MAX_ACCESSOR_BYTES
    {
      SampleValid(i);
      SampleAccessorValid(i);
    }
    SampleLeasesDiffer();
    SampleUsesDiffer();
    SampleAccessorsDiffer();
  }

  /** There is a configuration within the limits of the broker under which it puts itself out of service. */
  lemma {:induction false} OutageExists(read: Reader) returns (run: Run)
    requires ReadsOwn(read)
    ensures var c := Actual(SampleConfig(), read);
            && Legal(c, INITIAL, run) && FaultFreeRun(run)
            && Legal(c, INITIAL, run + [Crash]) && OutOfService(c, After(c, INITIAL, run + [Crash]))
  {
    SampleSuitable();
    SampleDigestHex();
    run := OutageReachable(SampleConfig(), read, SampleWorkload());
  }
}
