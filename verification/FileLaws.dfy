/** Which lease files start-up takes, said without the loader's own tests, and how text is escaped in them. */
module FileLaws {
  import opened Strings
  import opened StateCodec
  import Hex
  import Utf8

  /** The last two octal digits of the mode are zero: nothing for the group, nothing for others. */
  predicate OwnerOnly(mode: nat) {
    mode % 8 == 0 && mode / 8 % 8 == 0
  }

  lemma {:induction false} PrivateExactly(mode: nat)
    ensures Private(mode) <==> OwnerOnly(mode)
  {
    LastTwoDigits(mode / 64, mode % 64 / 8, mode % 8);
  }

  lemma {:induction false} LastTwoDigits(high: nat, middle: nat, low: nat)
    requires middle < 8 && low < 8
    ensures var n := 64 * high + 8 * middle + low;
            n % 64 == 8 * middle + low && n % 8 == low && n / 8 == 8 * high + middle && n / 8 % 8 == middle
  {
  }

  /** A hex-coded 32 bytes for a key, and 1 to 4096 bytes without control bytes for an accessor. */
  predicate GoodEntry(key: string, accessor: string) {
    && Hex.Decode(key).Some? && |Hex.Decode(key).value| == 32
    && 1 <= |Utf8.Bytes(accessor)| <= 4096 && Utf8.Plain(Utf8.Bytes(accessor))
  }

  lemma {:induction false} EntryExactly(key: string, accessor: string)
    ensures ValidEntry(key, accessor) <==> GoodEntry(key, accessor)
  {
    LeaseKeys.LeaseKeyExactly(key);
    Utf8.SecretExactly(accessor, 4096);
  }

  ghost predicate GoodFile(read: Reader, f: File, leases: Leases) {
    && f.regular && OwnerOnly(f.mode) && 1 <= |Utf8.Bytes(f.content)| <= 4 * 1024 * 1024
    && read(f.content) == Some(Persisted(1, Some(leases)))
    && forall k | k in leases :: GoodEntry(k, leases[k])
  }

  /** Start-up loads exactly the good files, and calls the others unsafe or invalid as the case may be. */
  lemma {:induction false} LoadsExactly(read: Reader, f: File, leases: Leases)
    ensures Load(read, Some(f)) == Loaded(leases) <==> GoodFile(read, f, leases)
    ensures Load(read, Some(f)) == UnsafeFile <==> !f.regular || !OwnerOnly(f.mode)
  {
    forall k, a ensures ValidEntry(k, a) <==> GoodEntry(k, a) { EntryExactly(k, a); }
    assert |Utf8.Bytes(f.content)| == ByteLength(f.content);
    assert f.content == [] <==> |Utf8.Bytes(f.content)| == 0;
  }

  /** Among the modes it takes, the loader does not care which. */
  lemma {:induction false} ModeIrrelevant(read: Reader, f: File, mode: nat)
    requires OwnerOnly(f.mode) && OwnerOnly(mode)
    ensures Load(read, Some(f)) == Load(read, Some(f.(mode := mode)))
  {
  }

  /** What a persist writes: a regular file that the owner reads and writes and nobody else touches. */
  lemma {:induction false} WrittenPrivately(leases: Leases)
    ensures Written(leases).regular && Written(leases).mode / 64 == 6 && OwnerOnly(Written(leases).mode)
  {
    PrivateExactly(Written(leases).mode);
  }

  // ----- Escapes -----

  const SHORT: string := "\"\\\n\r\t"

  /** The other two characters with a short escape. */
  predicate BackspaceOrFeed(c: char) {
    c as int == 8 || c as int == 12
  }

  predicate Markup(c: char) {
    c == '<' || c == '>' || c == '&' || c as int == 0x2028 || c as int == 0x2029
  }

  /**
   A character is written as itself, as two characters, or as a backslash, `u` and four lower-case hex
   digits of its code; the last for the control characters without a short escape and for what a
   browser could take for markup.
   */
  lemma {:induction false} EscapeExactly(c: char)
    ensures Escape(c) == [c] <==> c as int >= 0x20 && c !in SHORT && !Markup(c)
    ensures |Escape(c)| == 2 <==> c in SHORT || BackspaceOrFeed(c)
    ensures c as int < 0x1_0000 && Escape(c) != [c] && |Escape(c)| != 2 ==>
              Escape(c) == ['\\', 'u'] + Hex.Encode([c as int / 256, c as int % 256])
  {
    if c as int < 0x1_0000 && Escape(c) != [c] && |Escape(c)| != 2 {
      UnicodeIsHex(c as int);
    }
  }

  lemma {:induction false} UnicodeIsHex(n: nat)
    requires n < 0x1_0000
    ensures Unicode(n) == ['\\', 'u'] + Hex.Encode([n / 256, n % 256])
  {
    DigitIsHex(n / 16 / 16 / 16);
    DigitIsHex(n / 16 / 16 % 16);
    DigitIsHex(n / 16 % 16);
    DigitIsHex(n % 16);
    var bytes := [n / 256, n % 256];
    assert bytes[1..] == [n % 256] && [n % 256][1..] == [];
    assert Hex.Encode([]) == [];
    Halves(n);
  }

  lemma {:induction false} Halves(n: nat)
    requires n < 0x1_0000
    ensures n / 256 / 16 == n / 16 / 16 / 16 && n / 256 % 16 == n / 16 / 16 % 16
    ensures n % 256 / 16 == n / 16 % 16 && n % 256 % 16 == n % 16
  {
  }

  lemma {:induction false} DigitIsHex(d: nat)
    requires d < 16
    ensures HexOf(d) == Hex.DIGITS[d]
  {
    Hex.DigitsAreListed(HexOf(d), d);
  }
}
