/**
 The lease file. `Encode` is the text `json.Marshal` writes for a lease map: the struct fields in
 order, the map keys sorted, Go's HTML-safe string escapes. `Decode` reads that compact form back;
 the loader takes any reader of JSON text that agrees with it on what `Encode` writes, and
 `Load` is the sequence of checks of `loadStateStore`.
 */
module StateCodec {
  import opened Strings
  import opened LeaseKeys
  import opened Decimal

  type Leases = map<string, string>

  // ----- String escapes -----

  function HexOf(d: nat): char
    requires d < 16
  {
    if d < 10 then DigitOf(d) else ('a' as int + (d - 10)) as char
  }

  function HexValue(c: char): Option<nat> {
    if IsDigit(c) then Some(DigitValue(c))
    else if 'a' <= c <= 'f' then Some(c as int - 'a' as int + 10)
    else if 'A' <= c <= 'F' then Some(c as int - 'A' as int + 10)
    else None
  }

  function Unicode(n: nat): string
    requires n < 0x1_0000
  {
    ['\\', 'u', HexOf(n / 16 / 16 / 16), HexOf(n / 16 / 16 % 16), HexOf(n / 16 % 16), HexOf(n % 16)]
  }

  function Escape(c: char): (s: string)
    ensures s != [] && s[0] != '\"'
  {
    if c == '\"' || c == '\\' then ['\\', c]
    else if c as int == 8 then "\\b"
    else if c as int == 12 then "\\f"
    else if c == '\n' then "\\n"
    else if c == '\r' then "\\r"
    else if c == '\t' then "\\t"
    else if c as int < 0x20 || c == '<' || c == '>' || c == '&' || c as int == 0x2028 || c as int == 0x2029
    then Unicode(c as int)
    else [c]
  }

  /** The body of a string literal, its closing quote, and the text after it. */
  function EscapeThen(s: string, rest: string): string {
    if s == [] then ['\"'] + rest else Escape(s[0]) + EscapeThen(s[1..], rest)
  }

  function QuoteThen(s: string, rest: string): string {
    ['\"'] + EscapeThen(s, rest)
  }

  /** The character an escape stands for and the text after it; `text` starts after the backslash. */
  function ReadEscape(text: string): (r: Option<(char, string)>)
    ensures r.Some? ==> |r.value.1| < |text|
  {
    if text == [] then None
    else if text[0] in "\"\\/" then Some((text[0], text[1..]))
    else if text[0] == 'b' then Some((8 as char, text[1..]))
    else if text[0] == 'f' then Some((12 as char, text[1..]))
    else if text[0] == 'n' then Some(('\n', text[1..]))
    else if text[0] == 'r' then Some(('\r', text[1..]))
    else if text[0] == 't' then Some(('\t', text[1..]))
    else if text[0] != 'u' || |text| < 5 then None
    else
      match (HexValue(text[1]), HexValue(text[2]), HexValue(text[3]), HexValue(text[4]))
      case (Some(a), Some(b), Some(c), Some(d)) =>
        var n := ((a * 16 + b) * 16 + c) * 16 + d;
        if 0 <= n < 0xD800 || 0xE000 <= n < 0x1_0000 then Some((n as char, text[5..])) else None
      case _ => None
  }

  /** The string up to its closing quote and the text after it; `text` starts after the opening quote. */
  function ReadString(text: string): (r: Option<(string, string)>)
    ensures r.Some? ==> |r.value.1| < |text|
    decreases |text|
  {
    if text == [] then None
    else if text[0] == '\"' then Some(([], text[1..]))
    else if text[0] == '\\' then
      match ReadEscape(text[1..])
      case Some((c, rest)) =>
        (match ReadString(rest)
         case Some((s, after)) => Some(([c] + s, after))
         case None => None)
      case None => None
    else
      match ReadString(text[1..])
      case Some((s, after)) => Some(([text[0]] + s, after))
      case None => None
  }

  lemma {:induction false} ReadHex(d: nat)
    requires d < 16
    ensures HexValue(HexOf(d)) == Some(d)
  {
  }

  lemma {:induction false} ReadUnicode(n: nat, rest: string)
    requires n < 0xD800
    ensures ReadEscape(Unicode(n)[1..] + rest) == Some((n as char, rest))
  {
    var text := Unicode(n)[1..] + rest;
    assert text[5..] == rest;
    ReadHex(n / 16 / 16 / 16);
    ReadHex(n / 16 / 16 % 16);
    ReadHex(n / 16 % 16);
    ReadHex(n % 16);
  }

  lemma {:induction false} ReadEscaped(c: char, rest: string)
    requires Escape(c) != [c]
    ensures Escape(c)[0] == '\\' && ReadEscape(Escape(c)[1..] + rest) == Some((c, rest))
  {
    if |Escape(c)| == 6 {
      ReadUnicode(c as int, rest);
    } else {
      assert (Escape(c)[1..] + rest)[1..] == rest;
    }
  }

  lemma {:induction false} ReadQuoted(s: string, rest: string)
    ensures ReadString(EscapeThen(s, rest)) == Some((s, rest))
  {
    if s != [] {
      var tail := EscapeThen(s[1..], rest);
      var text := Escape(s[0]) + tail;
      ReadQuoted(s[1..], rest);
      if Escape(s[0]) == [s[0]] {
        assert text[1..] == tail;
      } else {
        ReadEscaped(s[0], tail);
        assert text[1..] == Escape(s[0])[1..] + tail;
      }
      assert [s[0]] + s[1..] == s;
    }
  }

  // ----- The sorted members of the map -----

  predicate IsLeast(keys: set<string>, k: string) {
    k in keys && forall o | o in keys :: o == k || Below(k, o)
  }

  lemma {:induction false} LeastExists(keys: set<string>)
    requires keys != {}
    ensures exists k :: IsLeast(keys, k)
  {
    var x :| x in keys;
    var others := keys - {x};
    if others == {} {
      forall o | o in keys ensures o == x { assert o !in others; }
      assert IsLeast(keys, x);
    } else {
      LeastExists(others);
      var k :| IsLeast(others, k);
      BelowTotal(x, k);
      if Below(x, k) {
        forall o | o in keys ensures o == x || Below(x, o) {
          if o != x && o != k { BelowTransitive(x, k, o); }
        }
        assert IsLeast(keys, x);
      } else {
        forall o | o in keys ensures o == k || Below(k, o) {
          assert o == x || o in others;
        }
        assert IsLeast(keys, k);
      }
    }
  }

  lemma {:induction false} LeastUnique(keys: set<string>, k: string, l: string)
    requires IsLeast(keys, k) && IsLeast(keys, l)
    ensures k == l
  {
    BelowIrreflexive(k);
    if Below(k, l) && Below(l, k) { BelowTransitive(k, l, k); }
  }

  function Least(keys: set<string>): (k: string)
    requires keys != {}
    ensures k in keys
  {
    LeastExists(keys);
    assert forall k, l | IsLeast(keys, k) && IsLeast(keys, l) :: k == l by {
      forall k, l | IsLeast(keys, k) && IsLeast(keys, l) ensures k == l { LeastUnique(keys, k, l); }
    }
    var k :| k in keys && IsLeast(keys, k);
    k
  }

  function Sorted(keys: set<string>): seq<string> {
    if keys == {} then [] else [Least(keys)] + Sorted(keys - {Least(keys)})
  }

  /** `Sorted` is the strictly increasing enumeration of a set of keys. */
  lemma {:induction false} SortedEnumerates(keys: set<string>)
    ensures StrictlyIncreasing(Sorted(keys))
    ensures forall k :: k in Sorted(keys) <==> k in keys
    ensures |Sorted(keys)| == |keys|
  {
    if keys != {} {
      var k := Least(keys);
      LeastExists(keys);
      var l :| IsLeast(keys, l);
      LeastUnique(keys, k, l);
      SortedEnumerates(keys - {k});
    }
  }

  /** The members from `keys[0]` on, the closing brace, and the text after it. */
  function Members(keys: seq<string>, leases: Leases, rest: string): string {
    if keys == [] then ['}'] + rest
    else
      var accessor := if keys[0] in leases then leases[keys[0]] else "";
      QuoteThen(keys[0], [':'] + QuoteThen(accessor,
        if |keys| == 1 then ['}'] + rest else [','] + Members(keys[1..], leases, rest)))
  }

  const VERSION_FIELD := "{\"version\":"
  const LEASES_FIELD := ",\"leases\":"

  function Encode(leases: Leases): string {
    VERSION_FIELD + (Print(1) + (LEASES_FIELD + (['{'] + Members(Sorted(leases.Keys), leases, "}"))))
  }

  // ----- Reading the text back -----

  datatype Persisted = Persisted(version: nat, leases: Option<Leases>)

  /** One or more members and the closing brace, added to `found`. */
  function ReadMembers(text: string, found: Leases): Option<(Leases, string)>
    decreases |text|
  {
    if text == [] || text[0] != '\"' then None
    else match ReadString(text[1..])
      case None => None
      case Some((key, afterKey)) =>
        if |afterKey| < 2 || afterKey[0] != ':' || afterKey[1] != '\"' then None
        else match ReadString(afterKey[2..])
          case None => None
          case Some((accessor, rest)) =>
            if rest == [] then None
            else if rest[0] == ',' then ReadMembers(rest[1..], found[key := accessor])
            else if rest[0] == '}' then Some((found[key := accessor], rest[1..]))
            else None
  }

  function ReadLeases(text: string): Option<(Option<Leases>, string)> {
    if |text| < 2 then None
    else if text[0] != '{' then if "null" <= text then Some((None, text[4..])) else None
    else if text[1] == '}' then Some((Some(map[]), text[2..]))
    else match ReadMembers(text[1..], map[])
      case Some((leases, rest)) => Some((Some(leases), rest))
      case None => None
  }

  function DigitCount(s: string): (n: nat)
    ensures n <= |s| && AllDigits(s[..n])
  {
    if s == [] || !IsDigit(s[0]) then 0
    else
      var n := DigitCount(s[1..]);
      assert s[..n + 1] == [s[0]] + s[1..][..n];
      n + 1
  }

  function Decode(text: string): Option<Persisted> {
    if !(VERSION_FIELD <= text) then None
    else
      var number := text[|VERSION_FIELD|..];
      var digits := DigitCount(number);
      if !Canonical(number[..digits]) || !(LEASES_FIELD <= number[digits..]) then None
      else match ReadLeases(number[digits..][|LEASES_FIELD|..])
        case None => None
        case Some((leases, rest)) =>
          if rest == "}" then Some(Persisted(Value(number[..digits]), leases)) else None
  }

  ghost function Restrict(leases: Leases, keys: seq<string>): Leases
    requires forall k | k in keys :: k in leases
  {
    map k | k in keys :: leases[k]
  }

  /** What `ReadMembers` does with one member that is followed by a comma or a brace. */
  lemma {:induction false} ReadMember(key: string, accessor: string, rest: string, found: Leases)
    requires rest != [] && (rest[0] == ',' || rest[0] == '}')
    ensures ReadMembers(QuoteThen(key, [':'] + QuoteThen(accessor, rest)), found)
         == if rest[0] == ',' then ReadMembers(rest[1..], found[key := accessor])
            else Some((found[key := accessor], rest[1..]))
  {
    var afterKey := [':'] + QuoteThen(accessor, rest);
    var text := QuoteThen(key, afterKey);
    assert text[1..] == EscapeThen(key, afterKey);
    ReadQuoted(key, afterKey);
    assert afterKey[2..] == EscapeThen(accessor, rest);
    ReadQuoted(accessor, rest);
  }

  lemma {:induction false} MembersRoundTrip(keys: seq<string>, leases: Leases, found: Leases, rest: string)
    requires keys != [] && forall k | k in keys :: k in leases
    ensures ReadMembers(Members(keys, leases, rest), found) == Some((found + Restrict(leases, keys), rest))
  {
    var key, accessor := keys[0], leases[keys[0]];
    if |keys| == 1 {
      ReadMember(key, accessor, ['}'] + rest, found);
      assert found[key := accessor] == found + Restrict(leases, keys);
    } else {
      var tail := Members(keys[1..], leases, rest);
      ReadMember(key, accessor, [','] + tail, found);
      assert ([','] + tail)[1..] == tail;
      MembersRoundTrip(keys[1..], leases, found[key := accessor], rest);
      RestrictTail(keys, leases, found);
    }
  }

  lemma {:induction false} RestrictTail(keys: seq<string>, leases: Leases, found: Leases)
    requires keys != [] && forall k | k in keys :: k in leases
    ensures found[keys[0] := leases[keys[0]]] + Restrict(leases, keys[1..]) == found + Restrict(leases, keys)
  {
    assert keys == [keys[0]] + keys[1..];
  }

  lemma {:induction false} ReadNoMembers(rest: string)
    ensures ReadLeases(['{'] + (['}'] + rest)) == Some((Some(map[]), rest))
  {
    var text := ['{'] + (['}'] + rest);
    assert text[0] == '{' && text[1] == '}' && text[2..] == rest;
  }

  lemma {:induction false} ReadSomeMembers(inner: string, leases: Leases, rest: string)
    requires inner != [] && inner[0] != '}' && ReadMembers(inner, map[]) == Some((leases, rest))
    ensures ReadLeases(['{'] + inner) == Some((Some(leases), rest))
  {
    var text := ['{'] + inner;
    assert text[0] == '{' && text[1] == inner[0] && text[1..] == inner;
  }

  lemma {:induction false} KeysRoundTrip(keys: seq<string>, leases: Leases, rest: string)
    requires forall k :: k in keys <==> k in leases
    ensures ReadLeases(['{'] + Members(keys, leases, rest)) == Some((Some(leases), rest))
  {
    if keys == [] {
      assert leases == map[];
      ReadNoMembers(rest);
    } else {
      MembersRoundTrip(keys, leases, map[], rest);
      assert map[] + Restrict(leases, keys) == leases;
      ReadSomeMembers(Members(keys, leases, rest), leases, rest);
    }
  }

  /** The decoder reads back every map the encoder wrote, whatever its keys and accessors contain. */
  lemma {:induction false} RoundTrip(leases: Leases)
    ensures Encode(leases) != [] && Decode(Encode(leases)) == Some(Persisted(1, Some(leases)))
  {
    var body := ['{'] + Members(Sorted(leases.Keys), leases, "}");
    var fields := LEASES_FIELD + body;
    var number := Encode(leases)[|VERSION_FIELD|..];
    assert number == Print(1) + fields && Print(1) == "1";
    assert number[1..] == fields && number[..1] == "1";
    assert DigitCount(fields) == 0;
    assert DigitCount(number) == 1;
    assert Value("1") == 1 by { assert "1"[..0] == []; }
    assert fields[|LEASES_FIELD|..] == body;
    SortedEnumerates(leases.Keys);
    KeysRoundTrip(Sorted(leases.Keys), leases, "}");
  }

  // ----- loadStateStore -----

  datatype File = File(regular: bool, mode: nat, content: string)

  datatype LoadResult = Loaded(leases: Leases) | UnsafeFile | InvalidFile

  const MAX_STATE_BYTES: nat := 0x40_0000
  const MAX_ACCESSOR_BYTES: nat := 4096
  const OWNER_ONLY: nat := 0x180 // mode 0600

  /** No permission bit for group or others. */
  predicate Private(mode: nat) {
    mode % 64 == 0
  }

  predicate ValidEntry(key: string, accessor: string) {
    LeaseKey(key) && ValidOpaqueSecret(accessor, MAX_ACCESSOR_BYTES)
  }

  ghost predicate ValidLeases(leases: Leases) {
    forall k | k in leases :: ValidEntry(k, leases[k])
  }

  /** A JSON reader for the state struct: what `Decode` of the standard library gives for a text. */
  type Reader = string -> Option<Persisted>

  /** It reads what the broker writes. Other spellings it may take or refuse as it likes. */
  ghost predicate ReadsOwn(read: Reader) {
    forall leases :: read(Encode(leases)) == Some(Persisted(1, Some(leases)))
  }

  lemma {:induction false} DecodeReadsOwn()
    ensures ReadsOwn(Decode)
  {
    forall leases ensures Decode(Encode(leases)) == Some(Persisted(1, Some(leases))) {
      RoundTrip(leases);
    }
  }

  ghost function Load(read: Reader, file: Option<File>): LoadResult {
    match file
    case None => Loaded(map[])
    case Some(f) =>
      if !f.regular || !Private(f.mode) then UnsafeFile
      else if f.content == [] || ByteLength(f.content) > MAX_STATE_BYTES then InvalidFile
      else CheckDecoded(read(f.content))
  }

  ghost function CheckDecoded(state: Option<Persisted>): LoadResult {
    match state
    case None => InvalidFile
    case Some(Persisted(version, leases)) =>
      if version == 1 && leases.Some? && ValidLeases(leases.value) then Loaded(leases.value) else InvalidFile
  }

  /** The loop of `loadStateStore` over the decoded map, in any order. */
  method CopyChecked(decoded: Leases) returns (r: LoadResult)
    ensures r == if ValidLeases(decoded) then Loaded(decoded) else InvalidFile
  {
    var leases: Leases := map[];
    var pending := decoded.Keys;
    while pending != {}
      invariant pending <= decoded.Keys
      invariant leases == map k | k in decoded && k !in pending :: decoded[k]
      invariant ValidLeases(leases)
      decreases |pending|
    {
      var key :| key in pending;
      if !ValidEntry(key, decoded[key]) {
        return InvalidFile;
      }
      leases := leases[key := decoded[key]];
      pending := pending - {key};
    }
    assert leases == decoded;
    return Loaded(leases);
  }

  method LoadStateStore(read: Reader, file: Option<File>) returns (r: LoadResult)
    ensures r == Load(read, file)
  {
    if file.None? {
      return Loaded(map[]);
    }
    var f := file.value;
    if !f.regular || !Private(f.mode) {
      return UnsafeFile;
    }
    if f.content == [] || ByteLength(f.content) > MAX_STATE_BYTES {
      return InvalidFile;
    }
    var state := read(f.content);
    if state.None? || state.value.version != 1 || state.value.leases.None? {
      return InvalidFile;
    }
    r := CopyChecked(state.value.leases.value);
  }

  /** The file `persistLocked` leaves for a lease map. */
  function Written(leases: Leases): File {
    File(true, OWNER_ONLY, Encode(leases))
  }

  predicate Loadable(leases: Leases) {
    ByteLength(Encode(leases)) <= MAX_STATE_BYTES
  }

  lemma {:induction false} LoadDecoded(read: Reader, f: File, leases: Leases)
    requires f.regular && Private(f.mode) && f.content != []
    requires read(f.content) == Some(Persisted(1, Some(leases))) && ValidLeases(leases)
    ensures Load(read, Some(f)) == if ByteLength(f.content) <= MAX_STATE_BYTES then Loaded(leases) else InvalidFile
  {
  }

  /**
   Load after persist is the identity exactly for the maps whose text is at most 4 MiB;
   `persistLocked` has no such cap, so a larger map is written and then refused.
   */
  lemma {:induction false} LoadAfterPersist(read: Reader, leases: Leases)
    requires ReadsOwn(read) && ValidLeases(leases)
    ensures Load(read, Some(Written(leases))) == if Loadable(leases) then Loaded(leases) else InvalidFile
  {
    RoundTrip(leases);
    LoadDecoded(read, Written(leases), leases);
  }

  // ----- A map that is written but not loaded -----

  lemma {:induction false} EscapeNotShorter(s: string, rest: string)
    ensures ByteLength(EscapeThen(s, rest)) >= |s| + ByteLength(rest)
  {
    if s == [] {
      ByteLengthConcat(['\"'], rest);
    } else {
      EscapeNotShorter(s[1..], rest);
      ByteLengthConcat(Escape(s[0]), EscapeThen(s[1..], rest));
    }
  }

  lemma {:induction false} QuoteNotShorter(s: string, rest: string)
    ensures ByteLength(QuoteThen(s, rest)) > |s| + ByteLength(rest)
  {
    EscapeNotShorter(s, rest);
    ByteLengthConcat(['\"'], EscapeThen(s, rest));
  }

  lemma {:induction false} MemberNotShorter(key: string, accessor: string, rest: string)
    ensures ByteLength(QuoteThen(key, [':'] + QuoteThen(accessor, rest))) > |accessor| + ByteLength(rest)
  {
    var value := QuoteThen(accessor, rest);
    QuoteNotShorter(accessor, rest);
    ByteLengthConcat([':'], value);
    QuoteNotShorter(key, [':'] + value);
  }

  /** The text is longer than its accessors together. */
  lemma {:induction false} MembersNotShorter(keys: seq<string>, leases: Leases, rest: string)
    requires forall k | k in keys :: k in leases && |leases[k]| == MAX_ACCESSOR_BYTES
    ensures ByteLength(Members(keys, leases, rest)) >= |keys| * MAX_ACCESSOR_BYTES
  {
    if keys != [] {
      var tail := if |keys| == 1 then ['}'] + rest else [','] + Members(keys[1..], leases, rest);
      MemberNotShorter(keys[0], leases[keys[0]], tail);
      if |keys| > 1 {
        MembersNotShorter(keys[1..], leases, rest);
        ByteLengthConcat([','], Members(keys[1..], leases, rest));
      }
    }
  }

  lemma {:induction false} AsciiLength(s: string)
    requires forall i | 0 <= i < |s| :: s[i] as int < 0x80
    ensures ByteLength(s) == |s|
  {
    if s != [] { AsciiLength(s[1..]); }
  }

  function Padding(n: nat): string {
    seq(n, _ => 'a')
  }

  /** Distinct valid lease keys, one for each number of at most 64 digits. */
  function NumberedKey(n: nat): string {
    if |Print(n)| <= 64 then Padding(64 - |Print(n)|) + Print(n) else Padding(64)
  }

  function NumberedLeases(n: nat, accessor: string): Leases {
    if n == 0 then map[] else NumberedLeases(n - 1, accessor)[NumberedKey(n - 1) := accessor]
  }

  lemma {:induction false} NumberedKeysDiffer(m: nat, n: nat)
    requires m < n && |Print(m)| <= 64 && |Print(n)| <= 64
    ensures NumberedKey(m) != NumberedKey(n)
  {
    var a, b := NumberedKey(m), NumberedKey(n);
    var i, j := 64 - |Print(m)|, 64 - |Print(n)|;
    CanonicalBijection("0", m, n);
    assert a[i..] == Print(m) && b[j..] == Print(n);
    assert IsDigit(a[i]) && IsDigit(b[j]);
    assert i < j ==> b[i] == 'a';
    assert j < i ==> a[j] == 'a';
  }

  lemma {:induction false} PrintLength(n: nat, digits: nat)
    requires n < 10000 && digits == 4
    ensures |Print(n)| <= digits
  {
    assert |Print(n / 10 / 10 / 10)| == 1;
    assert |Print(n / 10 / 10)| <= 2;
    assert |Print(n / 10)| <= 3;
  }

  lemma {:induction false} NumberedKeyValid(n: nat)
    requires n < 10000
    ensures LeaseKey(NumberedKey(n))
  {
    PrintLength(n, 4);
  }

  lemma {:induction false} NotNumbered(n: nat, i: nat, accessor: string)
    requires n <= i < 10000
    ensures NumberedKey(i) !in NumberedLeases(n, accessor)
  {
    if n > 0 {
      PrintLength(n - 1, 4);
      PrintLength(i, 4);
      NumberedKeysDiffer(n - 1, i);
      NotNumbered(n - 1, i, accessor);
    }
  }

  lemma {:induction false} NumberedLeasesValid(n: nat, accessor: string)
    requires n <= 10000 && ValidOpaqueSecret(accessor, MAX_ACCESSOR_BYTES)
    ensures var leases := NumberedLeases(n, accessor);
            && ValidLeases(leases) && |leases| == n
            && (forall k | k in leases :: leases[k] == accessor)
  {
    if n > 0 {
      NumberedLeasesValid(n - 1, accessor);
      NumberedKeyValid(n - 1);
      NotNumbered(n - 1, n - 1, accessor);
    }
  }

  /** Leases with accessors of the permitted 4096 bytes: 1024 of them do not fit. */
  lemma {:induction false} FullIsUnloadable(leases: Leases)
    requires |leases| >= 1024 && forall k | k in leases :: |leases[k]| == MAX_ACCESSOR_BYTES
    ensures !Loadable(leases)
  {
    var keys := Sorted(leases.Keys);
    var members := Members(keys, leases, "}");
    SortedEnumerates(leases.Keys);
    MembersNotShorter(keys, leases, "}");
    assert |keys| == |leases.Keys| == |leases|;
    ByteLengthConcat(['{'], members);
    ByteLengthConcat(LEASES_FIELD, ['{'] + members);
    ByteLengthConcat(Print(1), LEASES_FIELD + (['{'] + members));
    ByteLengthConcat(VERSION_FIELD, Print(1) + (LEASES_FIELD + (['{'] + members)));
  }

  lemma {:induction false} EmptyLoadable()
    ensures Loadable(map[])
  {
    var leases: Leases := map[];
    assert leases.Keys == {};
    SortedEnumerates({});
    assert Sorted({}) == [];
    var text := Encode(leases);
    assert Print(1) == "1";
    assert text == VERSION_FIELD + ("1" + (LEASES_FIELD + "{}}"));
    AsciiLength(text);
  }

  /** Such a map is written without error and makes a file the next start refuses. */
  lemma {:induction false} UnloadableLeases(read: Reader)
    requires ReadsOwn(read)
    ensures var leases := NumberedLeases(1024, seq(MAX_ACCESSOR_BYTES, _ => 'x'));
            ValidLeases(leases) && Load(read, Some(Written(leases))) == InvalidFile
  {
    var accessor := seq(MAX_ACCESSOR_BYTES, _ => 'x');
    AsciiLength(accessor);
    NumberedLeasesValid(1024, accessor);
    var leases := NumberedLeases(1024, accessor);
    FullIsUnloadable(leases);
    LoadAfterPersist(read, leases);
  }
}
