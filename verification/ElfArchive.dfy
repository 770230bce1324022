/** Reading ar(1) archives: _libelf_ar_get_number, _libelf_ar_open and
    _libelf_ar_open_member of libelf_ar.c, and elf_next of elf_next.c. */
module ElfArchive {
  import opened Basics
  import opened Alignment

  const MAGIC: string := "!<arch>\n"
  const FMAG: string := "`\n"
  const SARMAG: nat := 8
  const HEADER: nat := 60   // name 16, date 12, uid 6, gid 6, mode 8, size 10, magic 2

  // --------------------------------------------------------------------- numbers

  predicate IsDigit(c: char) { '0' <= c <= '9' }

  function DigitValue(c: char): nat
    requires IsDigit(c)
  {
    c as int - '0' as int
  }

  function SkipBlanks(s: string): string {
    if s != [] && s[0] == ' ' then SkipBlanks(s[1..]) else s
  }

  /** Digits up to a blank, to a digit that is not one of the base, or to the end. */
  function ReadDigits(s: string, base: nat, r: nat): Option<nat> {
    if s == [] || s[0] == ' ' then Some(r)
    else if !IsDigit(s[0]) then None
    else if DigitValue(s[0]) >= base then Some(r)
    else ReadDigits(s[1..], base, Times(r, base) + DigitValue(s[0]))
  }

  function Number(s: string, base: nat): Option<nat> {
    ReadDigits(SkipBlanks(s), base, 0)
  }

  lemma TailOfRest(s: string, i: nat)
    requires i < |s|
    ensures s[i..][1..] == s[i + 1..] && s[i..] != [] && s[i..][0] == s[i]
  {
  }

  /** The loop over leading blanks. */
  method PassBlanks(s: string) returns (i: nat)
    ensures i <= |s| && SkipBlanks(s) == s[i..]
  {
    i := 0;
    assert s[0..] == s;
    while i < |s| && s[i] == ' '
      invariant 0 <= i <= |s| && SkipBlanks(s[i..]) == SkipBlanks(s)
    {
      TailOfRest(s, i);
      i := i + 1;
    }
  }

  /** _libelf_ar_get_number. */
  method GetNumber(s: string, base: nat) returns (r: Option<nat>)
    requires base <= 10
    ensures r == Number(s, base)
  {
    var i := PassBlanks(s);
    r := PassDigits(s, i, base);
  }

  lemma ReadStep(s: string, i: nat, base: nat, n: nat)
    requires i <= |s|
    ensures i == |s| || s[i] == ' ' ==> ReadDigits(s[i..], base, n) == Some(n)
    ensures i < |s| && s[i] != ' ' && !IsDigit(s[i]) ==> ReadDigits(s[i..], base, n) == None
    ensures i < |s| && IsDigit(s[i]) ==>
              var d := DigitValue(s[i]);
              ReadDigits(s[i..], base, n)
              == if d >= base then Some(n) else ReadDigits(s[i + 1..], base, Times(n, base) + d)
  {
    if i < |s| {
      TailOfRest(s, i);
    }
  }

  /** The loop over the digits. */
  method PassDigits(s: string, from: nat, base: nat) returns (r: Option<nat>)
    requires from <= |s| && base <= 10
    ensures r == ReadDigits(s[from..], base, 0)
  {
    var i, n: nat := from, 0;
    ghost var number := ReadDigits(s[from..], base, 0);
    while i < |s| && s[i] != ' '
      invariant from <= i <= |s| && ReadDigits(s[i..], base, n) == number
    {
      ReadStep(s, i, base, n);
      if !IsDigit(s[i]) {
        return None;
      }
      if DigitValue(s[i]) >= base {
        return Some(n);
      }
      TimesIsProduct(n, base);
      n := n * base + DigitValue(s[i]);
      i := i + 1;
    }
    ReadStep(s, i, base, n);
    return Some(n);
  }

  function Digit(d: nat): (c: char)
    requires d < 10
    ensures IsDigit(c) && DigitValue(c) == d
  {
    ('0' as int + d) as char
  }

  /** A number as printed in a base. */
  function Digits(base: nat, v: nat): (s: string)
    requires 2 <= base <= 10
    ensures |s| > 0 && IsDigit(s[0])
  {
    if v < base then [Digit(v)] else Digits(base, v / base) + [Digit(v % base)]
  }

  function Blanks(n: nat): (s: string)
    ensures |s| == n && forall i :: 0 <= i < n ==> s[i] == ' '
  {
    seq(n, _ => ' ')
  }

  lemma {:induction false} DigitsRead(base: nat, v: nat, rest: string)
    requires 2 <= base <= 10
    ensures ReadDigits(Digits(base, v) + rest, base, 0) == ReadDigits(rest, base, v)
    decreases v
  {
    if v < base {
      DigitRead(base, 0, v, rest);
    } else {
      var q, d := v / base, v % base;
      Quotient(base, v);
      LastDigit(base, v, rest);
      DigitsRead(base, q, [Digit(d)] + rest);
      DigitRead(base, q, d, rest);
    }
  }

  lemma Quotient(base: nat, v: nat)
    requires 2 <= base <= v
    ensures v == Times(v / base, base) + v % base && v / base < v
  {
    var q, r := v / base, v % base;
    assert v == q * base + r;
    TimesIsProduct(q, base);
    TimesTwo(q, base);
  }

  lemma {:induction false} TimesTwo(q: nat, base: nat)
    requires base >= 2
    ensures Times(q, base) >= 2 * q
  {
    if q > 0 {
      TimesTwo(q - 1, base);
    }
  }

  lemma LastDigit(base: nat, v: nat, rest: string)
    requires 2 <= base <= 10 && v >= base
    ensures Digits(base, v) + rest == Digits(base, v / base) + ([Digit(v % base)] + rest)
  {
  }

  lemma DigitRead(base: nat, r: nat, d: nat, rest: string)
    requires d < base <= 10
    ensures ReadDigits([Digit(d)] + rest, base, r) == ReadDigits(rest, base, Times(r, base) + d)
  {
    assert ([Digit(d)] + rest)[1..] == rest;
  }

  lemma {:induction false} BlanksSkipped(n: nat, s: string)
    requires s == [] || s[0] != ' '
    ensures SkipBlanks(Blanks(n) + s) == s
  {
    if n > 0 {
      assert (Blanks(n) + s)[1..] == Blanks(n - 1) + s;
      BlanksSkipped(n - 1, s);
    } else {
      assert Blanks(0) + s == s;
    }
  }

  /** A number printed with blanks on both sides is read back. */
  lemma NumberInverts(base: nat, v: nat, before: nat, after: nat)
    requires 2 <= base <= 10
    ensures Number(Blanks(before) + Digits(base, v) + Blanks(after), base) == Some(v)
  {
    var s := Digits(base, v) + Blanks(after);
    assert Blanks(before) + Digits(base, v) + Blanks(after) == Blanks(before) + s;
    BlanksSkipped(before, s);
    DigitsRead(base, v, Blanks(after));
  }

  predicate DigitOf(base: nat, c: char) {
    IsDigit(c) && DigitValue(c) < base
  }

  ghost predicate AllDigits(base: nat, s: string)
  {
    forall i :: 0 <= i < |s| ==> DigitOf(base, s[i])
  }

  /** The value of a string of digits, the last one counting ones. */
  function Value(base: nat, s: string): nat
  {
    if s == [] || !DigitOf(base, s[|s| - 1]) then 0
    else Times(Value(base, s[..|s| - 1]), base) + DigitValue(s[|s| - 1])
  }

  lemma {:induction false} RunRead(base: nat, run: string, rest: string)
    requires AllDigits(base, run)
    ensures ReadDigits(run + rest, base, 0) == ReadDigits(rest, base, Value(base, run))
    decreases |run|
  {
    if run == [] {
      assert run + rest == rest;
    } else {
      var n := |run| - 1;
      var front, last := run[..n], run[n];
      assert DigitOf(base, last);
      assert run + rest == front + ([last] + rest);
      RunRead(base, front, [last] + rest);
      assert ([last] + rest)[1..] == rest;
    }
  }

  /** What any field is read as: blanks, a run of digits, and what ends the run.  It is an
      error exactly if that is neither a blank nor a digit of another base. */
  lemma NumberMeans(base: nat, blanks: nat, run: string, rest: string)
    requires AllDigits(base, run) && (rest != [] ==> !DigitOf(base, rest[0]))
    requires run == [] && rest != [] ==> rest[0] != ' '
    ensures Number(Blanks(blanks) + run + rest, base)
            == if rest != [] && rest[0] != ' ' && !IsDigit(rest[0]) then None else Some(Value(base, run))
  {
    assert Blanks(blanks) + run + rest == Blanks(blanks) + (run + rest);
    if run != [] {
      assert DigitOf(base, run[0]) && (run + rest)[0] == run[0];
    } else {
      assert run + rest == rest;
    }
    BlanksSkipped(blanks, run + rest);
    RunRead(base, run, rest);
  }

  // -------------------------------------------------------------------- archives

  /** A member: its name field, the fields up to the size, the size, and its contents. */
  datatype Member = Member(name: string, middle: string, size: string, data: string)

  /** The size field says how much data there is. */
  predicate SizeRight(m: Member) {
    Number(m.size, 10) == Some(|m.data|)
  }

  /** The fields have their widths, and there is some data. */
  predicate MemberValid(m: Member) {
    |m.name| == 16 && |m.middle| == 32 && |m.size| == 10 && m.data != []
  }

  /** A member as ar(1) writes it, with its size in decimal and blanks behind it. */
  lemma PrintedSizeRight(m: Member)
    requires |Digits(10, |m.data|)| <= 10
    requires m.size == Digits(10, |m.data|) + Blanks(10 - |Digits(10, |m.data|)|)
    ensures |m.size| == 10 && SizeRight(m)
  {
    var v := |m.data|;
    NumberInverts(10, v, 0, 10 - |Digits(10, v)|);
    assert Blanks(0) + Digits(10, v) + Blanks(10 - |Digits(10, v)|) == m.size;
  }

  ghost predicate AllValid(ms: seq<Member>)
  {
    forall k {:trigger MemberValid(ms[k])} :: 0 <= k < |ms| ==> MemberValid(ms[k])
  }

  ghost predicate SizesRight(ms: seq<Member>)
  {
    forall k {:trigger SizeRight(ms[k])} :: 0 <= k < |ms| ==> SizeRight(ms[k])
  }

  function HeaderOf(m: Member): (h: string)
    requires MemberValid(m)
    ensures |h| == HEADER
  {
    m.name + m.middle + m.size + FMAG
  }

  /** LIBELF_ADJUST_AR_SIZE. */
  function Even(n: nat): nat {
    n + n % 2
  }

  function Padding(n: nat): (p: string)
    ensures |p| == Even(n) - n
  {
    if n % 2 == 0 then "" else "\n"
  }

  /** The offset of member `k`, or of the end of the archive. */
  function Start(ms: seq<Member>, k: nat): nat
    requires k <= |ms|
  {
    if k == 0 then SARMAG else Start(ms, k - 1) + HEADER + Even(|ms[k - 1].data|)
  }

  /** A member in the archive: header, contents, and a byte of padding if need be. */
  function MemberBytes(m: Member): (s: string)
    requires MemberValid(m)
    ensures |s| == HEADER + Even(|m.data|)
  {
    HeaderOf(m) + m.data + Padding(|m.data|)
  }

  /** The archive with the first `k` members. */
  ghost function Image(ms: seq<Member>, k: nat): (s: string)
    requires k <= |ms| && AllValid(ms)
    ensures |s| == Start(ms, k)
  {
    if k == 0 then MAGIC
    else
      assert MemberValid(ms[k - 1]);
      Image(ms, k - 1) + MemberBytes(ms[k - 1])
  }

  lemma {:induction false} MagicFirst(ms: seq<Member>, n: nat)
    requires AllValid(ms) && n <= |ms|
    ensures HasAt(Image(ms, n), 0, MAGIC)
  {
    if n > 0 {
      assert MemberValid(ms[n - 1]);
      MagicFirst(ms, n - 1);
      HasInLonger(Image(ms, n - 1), 0, MAGIC, MemberBytes(ms[n - 1]));
    }
  }

  /** Every member stands at its offset. */
  lemma {:induction false} MembersStand(ms: seq<Member>, n: nat, k: nat)
    requires AllValid(ms) && k < n <= |ms| && MemberValid(ms[k])
    ensures HasAt(Image(ms, n), Start(ms, k), MemberBytes(ms[k]))
  {
    assert MemberValid(ms[n - 1]);
    if k == n - 1 {
      HasLast(Image(ms, k), MemberBytes(ms[k]));
    } else {
      MembersStand(ms, n - 1, k);
      HasInLonger(Image(ms, n - 1), Start(ms, k), MemberBytes(ms[k]), MemberBytes(ms[n - 1]));
    }
  }

  lemma {:induction false} StartsAreEven(ms: seq<Member>, k: nat)
    requires k <= |ms|
    ensures Start(ms, k) % 2 == 0 && Start(ms, k) >= SARMAG
  {
    if k > 0 {
      StartsAreEven(ms, k - 1);
    }
  }

  lemma {:induction false} StartsGrow(ms: seq<Member>, j: nat, k: nat)
    requires j < k <= |ms|
    ensures Start(ms, j) + HEADER + |ms[j].data| <= Start(ms, k)
  {
    if j < k - 1 {
      StartsGrow(ms, j, k - 1);
    }
  }

  lemma FieldsOfHeader(m: Member)
    requires MemberValid(m)
    ensures var h := HeaderOf(m);
            h[0] == m.name[0] && h[48..58] == m.size && h[58..60] == FMAG
  {
    var h := HeaderOf(m);
    assert h[48..58] == m.size;
    assert h[58..60] == FMAG;
  }

  lemma DataFound(image: string, at: nat, m: Member)
    requires MemberValid(m) && HasAt(image, at, MemberBytes(m))
    ensures HasAt(image, at, HeaderOf(m)) && HasAt(image, at + HEADER, m.data)
  {
    HasPrefix(image, at, HeaderOf(m) + m.data, MemberBytes(m));
    HasParts(image, at, HeaderOf(m), m.data);
  }

  /** What the reader finds in a header. */
  lemma HeaderFields(image: string, at: nat, m: Member)
    requires MemberValid(m) && HasAt(image, at, MemberBytes(m))
    ensures at + HEADER + |m.data| <= |image|
    ensures image[at] == m.name[0] && image[at + 48..at + 58] == m.size && image[at + 58..at + 60] == FMAG
  {
    DataFound(image, at, m);
    var h := image[at..at + HEADER];
    FieldsOfHeader(m);
    assert h[0] == image[at];
    assert image[at + 48..at + 58] == h[48..58];
    assert image[at + 58..at + 60] == h[58..60];
  }

  // --------------------------------------------------------------------- opening

  datatype Opened = Next(offset: nat) | ArchiveError | Crash

  /** A symbol table or a table of long names: the magic names "/ " and "// ". */
  predicate IsTable(m: Member) {
    |m.name| > 2 && m.name[0] == '/' && (m.name[1] == ' ' || (m.name[1] == '/' && m.name[2] == ' '))
  }

  /** The names of tables are those that begin so; names have sixteen characters. */
  lemma TableNames(m: Member)
    requires |m.name| == 16
    ensures IsTable(m) <==> "/ " <= m.name || "// " <= m.name
  {
  }

  /** What the loop tests: a name that begins with a slash. */
  predicate HasSlash(m: Member) {
    m.name != [] && m.name[0] == '/'
  }

  /** How many members the loop skips. */
  function Skipped(ms: seq<Member>): (r: nat)
    ensures r <= |ms|
  {
    if |ms| > 0 && HasSlash(ms[0]) then (if |ms| > 1 && HasSlash(ms[1]) then 2 else 1) else 0
  }

  /** Member `k` is valid, its size field right, and it stands at its offset. */
  ghost predicate MemberAt(image: string, ms: seq<Member>, k: nat)
    requires k < |ms|
  {
    MemberValid(ms[k]) && SizeRight(ms[k]) && HasAt(image, Start(ms, k), MemberBytes(ms[k]))
  }

  /** An archive of these members, one directly behind the other. */
  ghost predicate IsArchive(image: string, ms: seq<Member>)
  {
    && HasAt(image, 0, MAGIC) && |image| == Start(ms, |ms|)
    && forall k {:trigger MemberAt(image, ms, k)} :: 0 <= k < |ms| ==> MemberAt(image, ms, k)
  }

  /** Members written one behind the other make an archive. */
  lemma ConcatenationIsArchive(ms: seq<Member>)
    requires AllValid(ms) && SizesRight(ms)
    ensures IsArchive(Image(ms, |ms|), ms)
  {
    MagicFirst(ms, |ms|);
    forall k | 0 <= k < |ms|
      ensures MemberAt(Image(ms, |ms|), ms, k)
    {
      assert MemberValid(ms[k]) && SizeRight(ms[k]);
      MembersStand(ms, |ms|, k);
    }
  }

  /** The header of `m` is found at `at`. */
  ghost predicate HeaderFound(image: string, at: nat, m: Member)
  {
    && at + HEADER <= |image| && m.data != []
    && image[at + 58..at + 60] == FMAG && (image[at] == '/' <==> HasSlash(m))
    && Number(image[at + 48..at + 58], 10) == Some(|m.data|)
  }

  /** What the functions below find of member `k`: its header, and the offset of the member
      that follows it. */
  ghost predicate Reads(image: string, ms: seq<Member>, k: nat)
    requires k < |ms|
  {
    var at := Start(ms, k);
    && at > 0 && at % 2 == 0 && HeaderFound(image, at, ms[k])
    && Start(ms, k + 1) == at + HEADER + Even(|ms[k].data|)
    && (k + 1 < |ms| <==> Start(ms, k + 1) < |image|)
  }

  ghost predicate Readable(image: string, ms: seq<Member>)
  {
    forall k {:trigger Reads(image, ms, k)} :: 0 <= k < |ms| ==> Reads(image, ms, k)
  }

  lemma FieldsAreHeader(image: string, at: nat, m: Member)
    requires MemberValid(m) && SizeRight(m) && at + HEADER <= |image|
    requires image[at] == m.name[0] && image[at + 48..at + 58] == m.size && image[at + 58..at + 60] == FMAG
    ensures HeaderFound(image, at, m)
  {
  }

  lemma HeaderReads(image: string, at: nat, m: Member)
    requires MemberValid(m) && SizeRight(m) && HasAt(image, at, MemberBytes(m))
    ensures HeaderFound(image, at, m)
  {
    HeaderFields(image, at, m);
    FieldsAreHeader(image, at, m);
  }

  lemma NextStarts(ms: seq<Member>, k: nat)
    requires k < |ms|
    ensures k + 1 < |ms| <==> Start(ms, k + 1) < Start(ms, |ms|)
  {
    if k + 1 < |ms| {
      StartsGrow(ms, k + 1, |ms|);
    }
  }

  lemma MemberReads(image: string, ms: seq<Member>, k: nat)
    requires IsArchive(image, ms) && k < |ms|
    ensures Reads(image, ms, k)
  {
    assert MemberAt(image, ms, k);
    HeaderReads(image, Start(ms, k), ms[k]);
    StartsAreEven(ms, k);
    NextStarts(ms, k);
  }

  /** In an archive, all members are found. */
  lemma ArchiveIsReadable(image: string, ms: seq<Member>)
    requires IsArchive(image, ms)
    ensures Readable(image, ms)
  {
    forall k | 0 <= k < |ms|
      ensures Reads(image, ms, k)
    {
      MemberReads(image, ms, k);
    }
  }

  lemma StandsWithData(image: string, at: nat, m: Member)
    requires MemberValid(m) && HasAt(image, at, MemberBytes(m))
    ensures HasAt(image, at + HEADER, m.data)
  {
    DataFound(image, at, m);
  }

  /** The range of a member holds its contents. */
  lemma RangeHoldsData(image: string, ms: seq<Member>, k: nat)
    requires IsArchive(image, ms) && k < |ms|
    ensures HasAt(image, Start(ms, k) + HEADER, ms[k].data)
  {
    assert MemberAt(image, ms, k);
    StandsWithData(image, Start(ms, k), ms[k]);
  }

  /** One round of the loop of _libelf_ar_open: past a member with a slash, or to its end. */
  method PassSpecial(image: string, s: nat, ghost ms: seq<Member>, ghost k: nat)
    returns (r: Opened, special: bool)
    ensures r.Next? ==> r.offset >= s && (s % 2 == 0 ==> r.offset % 2 == 0)
    ensures k < |ms| && Reads(image, ms, k) && s == Start(ms, k) ==>
              && special == HasSlash(ms[k])
              && r == Next(if special then Start(ms, k + 1) else s)
    ensures s + HEADER > |image| ==> r == ArchiveError && !special
  {
    if s + HEADER > |image| {
      return ArchiveError, false;
    }
    if image[s + 58..s + 60] != FMAG {
      return ArchiveError, false;
    }
    if image[s] != '/' {
      return Next(s), false;
    }
    var sz := GetNumber(image[s + 48..s + 58], 10);
    if sz == None {
      return ArchiveError, true;
    }
    if sz.value == 0 {
      return Crash, true;
    }
    return Next(s + HEADER + Even(sz.value)), true;
  }

  /** _libelf_ar_open: the offset of the first member to be iterated over.  An archive
      with a table and nothing else is taken for a damaged one. */
  method Open(image: string, ghost ms: seq<Member>) returns (r: Opened)
    ensures Readable(image, ms) && ms != [] ==>
              r == if Skipped(ms) == |ms| == 1 then ArchiveError else Next(Start(ms, Skipped(ms)))
    ensures r.Next? ==> r.offset >= SARMAG && r.offset % 2 == 0
  {
    r := Next(SARMAG);
    ghost var good := Readable(image, ms) && ms != [];
    var i, special := 0, true;
    while i < 2 && special && r.Next?
      invariant 0 <= i <= 2
      invariant r.Next? ==> r.offset >= SARMAG && r.offset % 2 == 0
      invariant good && special ==> i <= Skipped(ms) && r == Next(Start(ms, i))
      invariant good && !special ==>
                  r == if Skipped(ms) == |ms| == 1 then ArchiveError else Next(Start(ms, Skipped(ms)))
    {
      assert good && i < |ms| ==> Reads(image, ms, i);
      assert good && i > 0 ==> Reads(image, ms, i - 1);
      r, special := PassSpecial(image, r.offset, ms, i);
      i := i + 1;
    }
  }

  // --------------------------------------------------- which members are iterated over

  /** The tables are the first `s` members, and only those. */
  ghost predicate Divides(ms: seq<Member>, s: nat)
  {
    forall i :: 0 <= i < |ms| ==> (IsTable(ms[i]) <==> i < s)
  }

  /** The tables are at the front and at most two, and the member behind them, if it is
      one of the first two, has no slash. */
  ghost predicate TablesTold(ms: seq<Member>)
  {
    && (forall i :: 0 <= i < |ms| && IsTable(ms[i]) ==> i < 2 && IsTable(ms[0]))
    && (forall i :: 0 <= i < |ms| && i < 2 && !IsTable(ms[i]) && (i == 1 ==> IsTable(ms[0])) ==> !HasSlash(ms[i]))
  }

  /** The loop skips the tables and nothing else exactly if they can be told apart. */
  lemma SkipsTablesIff(ms: seq<Member>)
    ensures Divides(ms, Skipped(ms)) <==> TablesTold(ms)
  {
    if Divides(ms, Skipped(ms)) {
      forall i | 0 <= i < |ms| && IsTable(ms[i])
        ensures i < 2 && IsTable(ms[0])
      {
        assert i < Skipped(ms);
      }
    }
  }

  /** A member with a long name, "/0", directly behind the table of long names is taken
      for a table, and not iterated over. */
  lemma LongNameIsSkipped(table: Member, long: Member, rest: seq<Member>)
    requires IsTable(table) && long.name == "/0              "
    ensures !IsTable(long) && Skipped([table, long] + rest) == 2 && !TablesTold([table, long] + rest)
  {
    var ms := [table, long] + rest;
    assert ms[0] == table && ms[1] == long;
    assert long.name[1] == '0';
  }

  // -------------------------------------------------------------------- iteration

  /** A member as it is handed out: where its bytes start, and how many there are. */
  datatype Range = Range(start: nat, size: nat)

  datatype Outcome = Done | Failed | Crashed

  /** elf_next: the offset of the next member, or zero after the last. */
  function After(image: string, m: Range): nat {
    var next := Even(m.start + m.size);
    if next >= |image| then 0 else next
  }

  /** The ranges given out lie behind each other, each at an even offset. */
  ghost predicate InTurn(rs: seq<Range>)
  {
    && (forall i :: 0 <= i < |rs| ==> rs[i].start % 2 == 0 && rs[i].size > 0)
    && (forall i :: 0 < i < |rs| ==> rs[i - 1].start + rs[i - 1].size + HEADER <= rs[i].start)
  }

  /** The ranges are those of the members from `k` on. */
  ghost predicate AreMembers(rs: seq<Range>, ms: seq<Member>, k: nat)
  {
    k + |rs| <= |ms| &&
    forall i {:trigger rs[i]} :: 0 <= i < |rs| ==> rs[i] == Range(Start(ms, k + i) + HEADER, |ms[k + i].data|)
  }

  lemma EvenSum(a: nat, n: nat)
    requires a % 2 == 0
    ensures Even(a + n) == a + Even(n)
  {
  }

  /** _libelf_ar_open_member, and elf_next for the member opened. */
  method OpenMember(image: string, next: nat, ghost ms: seq<Member>, ghost k: nat)
    returns (out: Outcome, m: Range, next': nat)
    requires next > 0 && next % 2 == 0
    ensures out.Done? ==> m.start == next + HEADER <= |image| && m.size > 0 && next' == After(image, m)
    ensures next + HEADER > |image| ==> out.Crashed?
    ensures Readable(image, ms) && k < |ms| && next == Start(ms, k) ==>
              && out.Done? && m == Range(Start(ms, k) + HEADER, |ms[k].data|)
              && next' == if k + 1 < |ms| then Start(ms, k + 1) else 0
  {
    assert Readable(image, ms) && k < |ms| ==> Reads(image, ms, k);
    m, next' := Range(next + HEADER, 0), 0;
    if next + HEADER > |image| {
      return Crashed, m, next';
    }
    var sz := GetNumber(image[next + 48..next + 58], 10);
    if sz == None {
      return Failed, m, next';
    }
    if sz.value == 0 {
      return Crashed, m, next';
    }
    m := Range(next + HEADER, sz.value);
    EvenSum(next + HEADER, sz.value);
    return Done, m, After(image, m);
  }

  lemma AfterBounds(image: string, m: Range)
    ensures After(image, m) % 2 == 0
    ensures After(image, m) > 0 ==> m.start + m.size <= After(image, m) < |image|
  {
  }

  lemma InTurnExtends(rs: seq<Range>, m: Range)
    requires InTurn(rs) && m.start % 2 == 0 && m.size > 0
    requires rs != [] ==> rs[|rs| - 1].start + rs[|rs| - 1].size + HEADER <= m.start
    ensures InTurn(rs + [m])
  {
  }

  lemma MembersExtend(rs: seq<Range>, m: Range, ms: seq<Member>, k: nat)
    requires AreMembers(rs, ms, k) && k + |rs| < |ms|
    requires m == Range(Start(ms, k + |rs|) + HEADER, |ms[k + |rs|].data|)
    ensures AreMembers(rs + [m], ms, k)
  {
  }

  /** The loop of elf_begin and elf_next over an archive, from the offset found by
      _libelf_ar_open: every member from there on in order, with its exact range, and then
      the end.  The offsets are even and only grow, whatever the file holds. */
  method Iterate(image: string, first: nat, ghost ms: seq<Member>, ghost k: nat)
    returns (out: Outcome, rs: seq<Range>)
    requires first > 0 && first % 2 == 0
    ensures InTurn(rs)
    ensures first + HEADER > |image| ==> out.Crashed? && rs == []
    ensures Readable(image, ms) && k < |ms| && first == Start(ms, k) ==>
              out.Done? && AreMembers(rs, ms, k) && |rs| == |ms| - k
  {
    rs := [];
    ghost var good := Readable(image, ms) && k < |ms| && first == Start(ms, k);
    var next := first;
    while next != 0
      invariant next % 2 == 0 && InTurn(rs)
      invariant first + HEADER > |image| ==> next == first && rs == []
      invariant rs != [] && next > 0 ==> rs[|rs| - 1].start + rs[|rs| - 1].size <= next
      invariant good ==> AreMembers(rs, ms, k)
      invariant good && next > 0 ==> k + |rs| < |ms| && next == Start(ms, k + |rs|)
      invariant good && next == 0 ==> k + |rs| == |ms|
      decreases if next == 0 then 0 else |image| + HEADER - next + 1, next
    {
      var m, next';
      out, m, next' := OpenMember(image, next, ms, k + |rs|);
      if !out.Done? {
        return;
      }
      InTurnExtends(rs, m);
      if good {
        MembersExtend(rs, m, ms, k);
      }
      AfterBounds(image, m);
      rs := rs + [m];
      next := next';
    }
    out := Done;
  }

  // ------------------------------------------------------------ the ordinary members

  function RangeOf(ms: seq<Member>, k: nat): Range
    requires k < |ms|
  {
    Range(Start(ms, k) + HEADER, |ms[k].data|)
  }

  function Ranges(ms: seq<Member>): (rs: seq<Range>)
    ensures |rs| == |ms|
  {
    seq(|ms|, k requires 0 <= k < |ms| => RangeOf(ms, k))
  }

  function Tables(ms: seq<Member>): (ts: seq<bool>)
    ensures |ts| == |ms|
  {
    seq(|ms|, k requires 0 <= k < |ms| => IsTable(ms[k]))
  }

  /** What is left of `xs` without the elements marked in `out`. */
  function Unmarked<T>(xs: seq<T>, out: seq<bool>): seq<T>
    requires |xs| == |out|
  {
    if xs == [] then []
    else if out[0] then Unmarked(xs[1..], out[1..])
    else [xs[0]] + Unmarked(xs[1..], out[1..])
  }

  /** The members that are not tables, in order. */
  function Ordinary(ms: seq<Member>): seq<Range> {
    Unmarked(Ranges(ms), Tables(ms))
  }

  ghost predicate Distinct<T>(xs: seq<T>)
  {
    forall i, j :: 0 <= i < j < |xs| ==> xs[i] != xs[j]
  }

  ghost predicate MarkedTo(out: seq<bool>, s: nat)
  {
    forall i :: 0 <= i < |out| ==> (out[i] <==> i < s)
  }

  lemma {:induction false} InUnmarked<T>(xs: seq<T>, out: seq<bool>, i: nat)
    requires |xs| == |out| && Distinct(xs) && i < |xs|
    ensures xs[i] in Unmarked(xs, out) <==> !out[i]
  {
    if i > 0 {
      InUnmarked(xs[1..], out[1..], i - 1);
    } else {
      OthersDiffer(xs[1..], out[1..], xs[0]);
    }
  }

  lemma {:induction false} OthersDiffer<T>(xs: seq<T>, out: seq<bool>, x: T)
    requires |xs| == |out| && x !in xs
    ensures x !in Unmarked(xs, out)
  {
    if xs != [] {
      OthersDiffer(xs[1..], out[1..], x);
    }
  }

  lemma {:induction false} FrontUnmarked<T>(xs: seq<T>, out: seq<bool>, s: nat)
    requires |xs| == |out| && MarkedTo(out, s) && s <= |xs|
    ensures Unmarked(xs, out) == xs[s..]
  {
    if xs != [] {
      FrontUnmarked(xs[1..], out[1..], if s == 0 then 0 else s - 1);
      assert s > 0 ==> xs[s..] == xs[1..][s - 1..];
    }
  }

  /** What is left is the end of the list exactly if its front is marked. */
  lemma UnmarkedIff<T>(xs: seq<T>, out: seq<bool>, s: nat)
    requires |xs| == |out| && Distinct(xs) && s <= |xs|
    ensures xs[s..] == Unmarked(xs, out) <==> MarkedTo(out, s)
  {
    if MarkedTo(out, s) {
      FrontUnmarked(xs, out, s);
    }
    if xs[s..] == Unmarked(xs, out) {
      forall i | 0 <= i < |out|
        ensures out[i] <==> i < s
      {
        InUnmarked(xs, out, i);
        assert xs[i] in xs[s..] <==> s <= i by {
          if s <= i {
            assert xs[s..][i - s] == xs[i];
          }
        }
      }
    }
  }

  lemma RangesDistinct(ms: seq<Member>)
    ensures Distinct(Ranges(ms))
  {
    forall i, j | 0 <= i < j < |ms|
      ensures Ranges(ms)[i] != Ranges(ms)[j]
    {
      StartsGrow(ms, i, j);
    }
  }

  lemma TablesMarked(ms: seq<Member>, s: nat)
    ensures MarkedTo(Tables(ms), s) <==> Divides(ms, s)
  {
    var ts := Tables(ms);
    assert forall i :: 0 <= i < |ms| ==> ts[i] == IsTable(ms[i]);
    if MarkedTo(ts, s) {
      forall i | 0 <= i < |ms|
        ensures IsTable(ms[i]) <==> i < s
      {
        assert ts[i] == IsTable(ms[i]);
      }
    }
  }

  /** The members from the first that is not skipped are the ordinary ones exactly if the
      tables can be told apart. */
  lemma OrdinaryIff(ms: seq<Member>)
    ensures Ranges(ms)[Skipped(ms)..] == Ordinary(ms) <==> TablesTold(ms)
  {
    RangesDistinct(ms);
    UnmarkedIff(Ranges(ms), Tables(ms), Skipped(ms));
    TablesMarked(ms, Skipped(ms));
    SkipsTablesIff(ms);
  }

  lemma SameMembers(rs: seq<Range>, ms: seq<Member>, k: nat)
    requires k <= |ms| && AreMembers(rs, ms, k) && |rs| == |ms| - k
    ensures rs == Ranges(ms)[k..]
  {
    forall i | 0 <= i < |rs|
      ensures rs[i] == Ranges(ms)[k..][i]
    {
      assert rs[i] == RangeOf(ms, k + i);
    }
  }

  /** An archive opened and iterated over: the ordinary members, all of them and in
      order, exactly if the tables can be told apart.  With one table and nothing else the
      archive is refused; with two, a header is read past the end of the file. */
  method Members(image: string, ghost ms: seq<Member>) returns (out: Outcome, rs: seq<Range>)
    ensures InTurn(rs)
    ensures Readable(image, ms) && Skipped(ms) < |ms| ==>
              && out.Done? && rs == Ranges(ms)[Skipped(ms)..]
              && (rs == Ordinary(ms) <==> TablesTold(ms))
    ensures Readable(image, ms) && ms != [] && Skipped(ms) == |ms| ==>
              out == (if |ms| == 1 then Failed else Crashed) && rs == []
  {
    rs := [];
    var r := Open(image, ms);
    if !r.Next? {
      return if r == Crash then Crashed else Failed, [];
    }
    if Readable(image, ms) && ms != [] {
      assert Reads(image, ms, |ms| - 1);
    }
    out, rs := Iterate(image, r.offset, ms, Skipped(ms));
    if Readable(image, ms) && Skipped(ms) < |ms| {
      SameMembers(rs, ms, Skipped(ms));
      OrdinaryIff(ms);
    }
  }
}
