/** Paths and 8.3 names: the conversion of a component to eleven bytes and the splitting at '/'. */
module FatPath {
  import opened Bytes
  import opened FatTree

  const SLASH: byte := 47
  const PERIOD: byte := 46
  const BLANK: byte := 32

  /** strchr: the first place of `c` in `s` from `from` on, or the end of the string. */
  function IndexFrom(s: seq<byte>, c: byte, from: nat): (k: nat)
    requires from <= |s|
    ensures from <= k <= |s|
    ensures c !in s[from..k] && (k < |s| ==> s[k] == c)
    decreases |s| - from
  {
    if from == |s| || s[from] == c then from else IndexFrom(s, c, from + 1)
  }

  method StrChr(s: seq<byte>, c: byte, from: nat) returns (k: nat)
    requires from <= |s|
    ensures k == IndexFrom(s, c, from)
  {
    k := from;
    while k < |s| && s[k] != c
      invariant from <= k <= |s| && IndexFrom(s, c, from) == IndexFrom(s, c, k)
    {
      k := k + 1;
    }
  }

  // ---- 8.3 names ----

  function Upper(c: byte): byte { if 97 <= c <= 122 then c - 32 else c }

  /** The first `width` characters in upper case, padded with blanks. */
  function Field(s: seq<byte>, width: nat): (f: seq<byte>)
    ensures |f| == width
  {
    seq(width, i requires 0 <= i => if i < |s| then Upper(s[i]) else BLANK)
  }

  function ShortName(s: seq<byte>): (n: Name)
    ensures |n| == 11
  {
    var dot := IndexFrom(s, PERIOD, 0);
    Field(s[..dot], 8) + Field(if dot < |s| then s[dot + 1..] else [], 3)
  }

  ghost predicate FirstPeriod(s: seq<byte>, d: nat) {
    d <= |s| && (forall i :: 0 <= i < d ==> s[i] != 46) && (d < |s| ==> s[d] == 46)
  }

  /** `b` stands for the character at `i`: that character, a small letter as its capital, or a blank past `end`. */
  ghost predicate StandsFor(b: byte, s: seq<byte>, i: nat, end: nat)
    requires end <= |s|
  {
    b == if i >= end then 32 else if 97 <= s[i] <= 122 then s[i] - 32 else s[i]
  }

  ghost predicate StandFor(part: seq<byte>, s: seq<byte>, from: nat, end: nat)
    requires end <= |s|
  {
    forall k :: 0 <= k < |part| ==> StandsFor(part[k], s, from + k, end)
  }

  /** Eight bytes for what comes before the first period of `s`, three for what comes after it. */
  ghost predicate Converted(name: seq<byte>, s: seq<byte>) {
    && |name| == 11
    && exists d: nat :: FirstPeriod(s, d) && ConvertedAt(name, s, d)
  }

  ghost predicate ConvertedAt(name: seq<byte>, s: seq<byte>, d: nat)
    requires |name| == 11 && d <= |s|
  {
    StandFor(name[..8], s, 0, d) && StandFor(name[8..], s, d + 1, |s|)
  }

  /** The conversion, byte by byte. */
  lemma ShortNameIs(s: seq<byte>)
    ensures Converted(ShortName(s), s)
  {
    var d := IndexFrom(s, PERIOD, 0);
    assert FirstPeriod(s, d) by {
      assert forall i :: 0 <= i < d ==> s[0..d][i] == s[i];
    }
    assert ShortName(s)[..8] == Field(s[..d], 8);
    assert ShortName(s)[8..] == Field(if d < |s| then s[d + 1..] else [], 3);
    assert ConvertedAt(ShortName(s), s, d);
  }

  /** Nothing else is that conversion. */
  lemma ConvertedUnique(a: seq<byte>, b: seq<byte>, s: seq<byte>)
    requires Converted(a, s) && Converted(b, s)
    ensures a == b
  {
    var d: nat :| FirstPeriod(s, d) && ConvertedAt(a, s, d);
    var e: nat :| FirstPeriod(s, e) && ConvertedAt(b, s, e);
    SamePeriod(s, d, e);
    hide FirstPeriod;
    assert a[..8] == b[..8] && a[8..] == b[8..];
    assert a == a[..8] + a[8..] && b == b[..8] + b[8..];
  }

  lemma SamePeriod(s: seq<byte>, d: nat, e: nat)
    requires FirstPeriod(s, d) && FirstPeriod(s, e)
    ensures d == e
  {
  }

  method FilenameToFat32(normal: seq<byte>) returns (name: Name)
    ensures name == ShortName(normal) && Converted(name, normal)
  {
    ShortNameIs(normal);
    hide Converted, ConvertedAt, FirstPeriod;
    name := [BLANK, BLANK, BLANK, BLANK, BLANK, BLANK, BLANK, BLANK, BLANK, BLANK, BLANK];
    var dot := StrChr(normal, PERIOD, 0);
    var nameLen, extLen := dot, if dot < |normal| then |normal| - (dot + 1) else 0;
    if nameLen > 8 { nameLen := 8; }
    if extLen > 3 { extLen := 3; }
    var i := 0;
    while i < nameLen
      invariant 0 <= i <= nameLen && |name| == 11
      invariant forall k :: 0 <= k < 11 ==> name[k] == if k < i then Upper(normal[k]) else BLANK
    {
      name := name[i := Upper(normal[i])];
      i := i + 1;
    }
    i := 0;
    while i < extLen
      invariant 0 <= i <= extLen && |name| == 11
      invariant forall k :: 0 <= k < 8 ==> name[k] == if k < nameLen then Upper(normal[k]) else BLANK
      invariant forall k :: 8 <= k < 11 ==> name[k] == if k < 8 + i then Upper(normal[dot + 1 + (k - 8)]) else BLANK
    {
      name := name[8 + i := Upper(normal[dot + 1 + i])];
      i := i + 1;
    }
    FieldIs(name[..8], normal[..dot], nameLen, 8);
    FieldIs(name[8..], if dot < |normal| then normal[dot + 1..] else [], extLen, 3);
  }

  lemma FieldIs(f: seq<byte>, s: seq<byte>, n: nat, width: nat)
    requires |f| == width && n == if |s| > width then width else |s|
    requires forall k :: 0 <= k < width ==> f[k] == if k < n then Upper(s[k]) else BLANK
    ensures f == Field(s, width)
  {
  }

  /** A converted component never equals "." or "..", never marks a slot unused, and marks it deleted only if the
      component itself begins with 0xE5: lookups cannot reach the dot entries. */
  lemma ShortNameIsOrdinary(s: seq<byte>)
    requires s != [] && 0 !in s
    ensures ShortName(s) != DOT && ShortName(s) != DOTDOT
    ensures ShortName(s)[0] != 0 && (ShortName(s)[0] == 0xE5 <==> s[0] == 0xE5)
  {
    var dot := IndexFrom(s, PERIOD, 0);
    assert ShortName(s)[0] == if 0 < dot then Upper(s[0]) else BLANK;
    assert dot == 0 <==> s[0] == PERIOD;
    assert s[0] in s;
  }

  /** A name under which a slot can be live. */
  predicate GoodName(n: Name) { |n| == 11 && n != DOT && n != DOTDOT && n[0] != 0 && n[0] != 0xE5 }

  // ---- components ----

  /** The names of the non-empty '/'-separated parts of a path. */
  function NamesOf(s: seq<byte>): (names: Path)
    decreases |s|
  {
    if s == [] then []
    else if s[0] == SLASH then NamesOf(s[1..])
    else [ShortName(s[..IndexFrom(s, SLASH, 0)])] + NamesOf(s[IndexFrom(s, SLASH, 0)..])
  }

  lemma IndexInPrefix(a: seq<byte>, b: seq<byte>, c: byte, from: nat)
    requires from <= |a|
    ensures IndexFrom(a + [c] + b, c, from) == IndexFrom(a, c, from)
    decreases |a| - from
  {
    if from < |a| && a[from] != c {
      IndexInPrefix(a, b, c, from + 1);
    }
  }

  /** A slash separates: the names before it, then the names after it. */
  lemma {:induction false} NamesSplit(a: seq<byte>, b: seq<byte>)
    ensures NamesOf(a + [47] + b) == NamesOf(a) + NamesOf(b)
    decreases |a|
  {
    hide ShortName;
    var s := a + [SLASH] + b;
    if a == [] {
      assert s[1..] == b;
    } else if a[0] == SLASH {
      assert s[1..] == a[1..] + [SLASH] + b;
      NamesSplit(a[1..], b);
    } else {
      IndexInPrefix(a, b, SLASH, 0);
      var k := IndexFrom(a, SLASH, 0);
      assert s[..k] == a[..k];
      assert s[k..] == a[k..] + [SLASH] + b;
      NamesSplit(a[k..], b);
    }
  }

  /** What holds no slash is one name. */
  lemma NamesOfPart(b: seq<byte>)
    requires b != [] && 47 !in b
    ensures NamesOf(b) == [ShortName(b)]
  {
    var k := IndexFrom(b, SLASH, 0);
    assert k == |b|;
    assert b[..k] == b && b[k..] == [];
  }

  /** `b` is `a` with some letters of the other case. */
  ghost predicate SameButCase(a: seq<byte>, b: seq<byte>) {
    && |a| == |b|
    && forall i :: 0 <= i < |a| ==> a[i] == b[i] || OtherCase(a[i], b[i]) || OtherCase(b[i], a[i])
  }

  predicate OtherCase(capital: byte, small: byte) { 65 <= capital <= 90 && small == capital + 32 }

  lemma SameIndex(a: seq<byte>, b: seq<byte>, c: byte, from: nat)
    requires SameButCase(a, b) && from <= |a| && (c == 46 || c == 47)
    ensures IndexFrom(a, c, from) == IndexFrom(b, c, from)
    decreases |a| - from
  {
    if from < |a| && a[from] != c {
      SameIndex(a, b, c, from + 1);
    }
  }

  lemma StandSame(part: seq<byte>, a: seq<byte>, b: seq<byte>, from: nat, end: nat)
    requires SameButCase(a, b) && end <= |a| && StandFor(part, a, from, end)
    ensures StandFor(part, b, from, end)
  {
    forall k | 0 <= k < |part| ensures StandsFor(part[k], b, from + k, end) {
      assert StandsFor(part[k], a, from + k, end);
    }
  }

  lemma SameShortName(a: seq<byte>, b: seq<byte>)
    requires SameButCase(a, b)
    ensures ShortName(a) == ShortName(b)
  {
    hide ShortName, StandFor;
    ShortNameIs(a);
    ShortNameIs(b);
    var d: nat :| FirstPeriod(a, d) && ConvertedAt(ShortName(a), a, d);
    assert FirstPeriod(b, d);
    hide FirstPeriod;
    StandSame(ShortName(a)[..8], a, b, 0, d);
    StandSame(ShortName(a)[8..], a, b, d + 1, |a|);
    ConvertedUnique(ShortName(a), ShortName(b), b);
  }

  /** Paths that differ only in the case of letters name the same. */
  lemma {:induction false} CaseIsIgnored(a: seq<byte>, b: seq<byte>)
    requires SameButCase(a, b)
    ensures NamesOf(a) == NamesOf(b)
    decreases |a|
  {
    hide ShortName;
    if a != [] {
      if a[0] == SLASH {
        CaseIsIgnored(a[1..], b[1..]);
      } else {
        SameIndex(a, b, SLASH, 0);
        var k := IndexFrom(a, SLASH, 0);
        SameShortName(a[..k], b[..k]);
        CaseIsIgnored(a[k..], b[k..]);
      }
    }
  }

  ghost predicate NoSmallLetter(n: Name) {
    |n| == 11 && forall k :: 0 <= k < |n| ==> !(97 <= n[k] <= 122)
  }

  /** No small letter occurs in a name of a path. */
  lemma {:induction false} NamesAreCapital(s: seq<byte>)
    ensures forall i :: 0 <= i < |NamesOf(s)| ==> NoSmallLetter(NamesOf(s)[i])
    decreases |s|
  {
    hide NoSmallLetter, ShortName;
    if s == [] {
    } else if s[0] == SLASH {
      NamesAreCapital(s[1..]);
    } else {
      var j := IndexFrom(s, SLASH, 0);
      NameIsCapital(s[..j]);
      NamesAreCapital(s[j..]);
    }
  }

  lemma NameIsCapital(s: seq<byte>)
    ensures NoSmallLetter(ShortName(s))
  {
    ShortNameIs(s);
    var name := ShortName(s);
    var d: nat :| FirstPeriod(s, d) && ConvertedAt(name, s, d);
    hide FirstPeriod, ShortName;
    forall k | 0 <= k < 11 ensures !(97 <= name[k] <= 122) {
      assert name[k] == if k < 8 then name[..8][k] else name[8..][k - 8];
    }
  }

  /** A path that does not end in a slash names something. */
  lemma {:induction false} NamesNonEmpty(s: seq<byte>)
    requires s != [] && s[|s| - 1] != SLASH
    ensures NamesOf(s) != []
    decreases |s|
  {
    if s[0] == SLASH {
      NamesNonEmpty(s[1..]);
    }
  }

  lemma {:induction false} TrailingSlash(a: seq<byte>)
    ensures NamesOf(a + [SLASH]) == NamesOf(a)
  {
    NamesSplit(a, []);
    assert a + [SLASH] + [] == a + [SLASH];
    assert NamesOf(a) + NamesOf([]) == NamesOf(a);
  }

  lemma {:induction false} LeadingSlash(a: seq<byte>)
    ensures NamesOf([SLASH] + a) == NamesOf(a)
  {
    assert ([SLASH] + a)[1..] == a;
  }

  lemma NamesOfEmpty()
    ensures NamesOf([]) == []
  {
  }

  lemma NamesLeft(copy: seq<byte>, from: nat)
    requires from < |copy| && copy[|copy| - 1] != SLASH
    ensures NamesOf(copy[from..]) != []
  {
    NamesNonEmpty(copy[from..]);
  }

  /** What is ahead after the component [start, slash). */
  lemma NextComponent(copy: seq<byte>, start: nat, slash: nat)
    requires start < |copy| && slash == IndexFrom(copy, SLASH, start)
    ensures slash > start ==>
              var more := if slash < |copy| then NamesOf(copy[slash + 1..]) else [];
              NamesOf(copy[start..]) == [ShortName(copy[start..slash])] + more
    ensures slash == start ==> NamesOf(copy[start..]) == NamesOf(copy[start + 1..])
  {
    hide ShortName;
    var rest := copy[start..];
    if slash > start {
      var part := copy[start..slash];
      NamesOfPart(part);
      if slash < |copy| {
        assert rest == part + [SLASH] + copy[slash + 1..];
        NamesSplit(part, copy[slash + 1..]);
      } else {
        assert rest == part;
      }
    } else {
      assert rest[0] == SLASH && rest[1..] == copy[start + 1..];
    }
  }

  // ---- the last-slash split of resolve_parent_directory ----

  /** strrchr on the first `n` characters: the last place of `c`, or -1. */
  function LastBefore(s: seq<byte>, c: byte, n: nat): (k: int)
    requires n <= |s|
    ensures -1 <= k < n && (k >= 0 ==> s[k] == c)
    ensures forall i :: k < i < n ==> s[i] != c
  {
    if n == 0 then -1 else if s[n - 1] == c then n - 1 else LastBefore(s, c, n - 1)
  }

  method StrRChr(s: seq<byte>, c: byte) returns (last: int)
    ensures last == LastBefore(s, c, |s|)
  {
    last := -1;
    var i := 0;
    while i < |s|
      invariant 0 <= i <= |s| && last == LastBefore(s, c, i)
    {
      if s[i] == c {
        last := i;
      }
      i := i + 1;
    }
  }

  /** One leading and one trailing slash removed. */
  function Stripped(path: seq<byte>): seq<byte> {
    var s := if path != [] && path[0] == SLASH then path[1..] else path;
    if s != [] && s[|s| - 1] == SLASH then s[..|s| - 1] else s
  }

  function LastSlash(s: seq<byte>): (k: int)
    ensures -1 <= k < |s| && (k >= 0 ==> s[k] == SLASH)
    ensures forall i :: k < i < |s| ==> s[i] != SLASH
    ensures s != [] && s[|s| - 1] == SLASH ==> k == |s| - 1
  {
    LastBefore(s, SLASH, |s|)
  }

  function DirOf(path: seq<byte>): seq<byte> {
    var k := LastSlash(Stripped(path));
    if k < 0 then [] else Stripped(path)[..k]
  }

  function LeafOf(path: seq<byte>): seq<byte> {
    Stripped(path)[LastSlash(Stripped(path)) + 1..]
  }

  predicate EndsInTwoSlashes(path: seq<byte>) {
    |path| >= 2 && path[|path| - 1] == 47 && path[|path| - 2] == 47
  }

  lemma {:induction false} StrippedNames(path: seq<byte>)
    ensures NamesOf(Stripped(path)) == NamesOf(path)
  {
    hide ShortName;
    var s := if path != [] && path[0] == SLASH then path[1..] else path;
    if s != [] && s[|s| - 1] == SLASH {
      TrailingSlash(s[..|s| - 1]);
      assert s[..|s| - 1] + [SLASH] == s;
    }
  }

  /** What comes after the last slash is one name or none. */
  lemma NamesOfLast(s: seq<byte>, k: int)
    requires -1 <= k < |s| && forall i :: k < i < |s| ==> s[i] != SLASH
    ensures NamesOf(s[k + 1..]) == if k + 1 == |s| then [] else [ShortName(s[k + 1..])]
  {
    hide ShortName, NamesOf;
    var leaf := s[k + 1..];
    if k + 1 == |s| {
      assert leaf == [];
      NamesOfEmpty();
    } else {
      assert |leaf| > 0;
      assert forall j :: 0 <= j < |leaf| ==> leaf[j] == s[k + 1 + j];
      NamesOfPart(leaf);
    }
  }

  lemma {:induction false} SplitAt(s: seq<byte>, k: int)
    requires -1 <= k < |s| && (k >= 0 ==> s[k] == SLASH) && forall i :: k < i < |s| ==> s[i] != SLASH
    ensures NamesOf(s) == NamesOf(if k < 0 then [] else s[..k])
                          + (if s[k + 1..] == [] then [] else [ShortName(s[k + 1..])])
  {
    hide ShortName, NamesOf;
    NamesOfLast(s, k);
    NamesOfEmpty();
    if k < 0 {
      WholeTail(s);
    } else {
      JoinAt(s, k);
      NamesSplit(s[..k], s[k + 1..]);
    }
  }

  lemma WholeTail(s: seq<byte>)
    ensures s[0..] == s
  {
  }

  lemma JoinAt(s: seq<byte>, k: nat)
    requires k < |s| && s[k] == SLASH
    ensures s[..k] + [SLASH] + s[k + 1..] == s
  {
  }

  lemma {:induction false} SplitNames(path: seq<byte>)
    ensures NamesOf(path) == NamesOf(DirOf(path)) + (if LeafOf(path) == [] then [] else [ShortName(LeafOf(path))])
  {
    hide ShortName, NamesOf, Stripped, LastSlash;
    var s, k := Stripped(path), LastSlash(Stripped(path));
    assert DirOf(path) == if k < 0 then [] else s[..k];
    assert LeafOf(path) == s[k + 1..];
    hide DirOf, LeafOf;
    StrippedNames(path);
    SplitAt(s, k);
  }

  lemma OnlySlashes()
    ensures NamesOf([SLASH, SLASH]) == []
  {
    assert [SLASH, SLASH][1..] == [SLASH] && [SLASH][1..] == [];
    assert NamesOf([SLASH]) == [];
  }

  /** A doubled trailing slash is what leaves the stripped path with a slash at its end. */
  lemma StrippedEnd(path: seq<byte>)
    requires Stripped(path) != [] && path != [SLASH, SLASH]
    ensures Stripped(path)[|Stripped(path)| - 1] == SLASH <==> EndsInTwoSlashes(path)
  {
  }

  /** The last-slash split finds no last component exactly at a doubled trailing slash. */
  lemma {:induction false} LeafIsEmpty(path: seq<byte>)
    requires NamesOf(path) != []
    ensures LeafOf(path) == [] <==> EndsInTwoSlashes(path)
  {
    hide NamesOf, ShortName, Stripped, LastSlash, EndsInTwoSlashes;
    StrippedNames(path);
    NamesOfEmpty();
    OnlySlashes();
    StrippedEnd(path);
  }

  /** The name that resolve_parent_directory leaves for a path that ends in two slashes. */
  lemma BlankName()
    ensures |ShortName([])| == 11 && forall i :: 0 <= i < 11 ==> ShortName([])[i] == 32
  {
  }

  /** A single period has the same short name, so a child with a blank name can be there. */
  lemma PeriodIsBlank()
    ensures ShortName([46]) == ShortName([])
  {
    assert [PERIOD][..0] == [] && [PERIOD][1..] == [];
    assert IndexFrom([PERIOD], PERIOD, 0) == 0 && IndexFrom([], PERIOD, 0) == 0;
  }

  /** find_file walks all the names of a path; resolve_parent_directory splits it at its last slash. Parent and last
      component agree if and only if the path does not end in two slashes. */
  lemma {:induction false} PathAgreement(path: seq<byte>)
    requires NamesOf(path) != []
    ensures NamesOf(DirOf(path)) == Parent(NamesOf(path)) && ShortName(LeafOf(path)) == Leaf(NamesOf(path))
            <==> !EndsInTwoSlashes(path)
  {
    hide ShortName, NamesOf, DirOf, LeafOf;
    SplitNames(path);
    LeafIsEmpty(path);
    if EndsInTwoSlashes(path) {
      assert |NamesOf(DirOf(path))| == |NamesOf(path)|;
    } else {
      assert NamesOf(path)[..|NamesOf(path)| - 1] == NamesOf(DirOf(path));
    }
  }

  /** "a//" names `a` for find_file, but the empty name inside `a` for resolve_parent_directory. */
  lemma {:induction false} DoubledSlashDisagrees()
    ensures NamesOf([97, 47, 47]) == [ShortName([97])]
    ensures NamesOf(DirOf([97, 47, 47])) == [ShortName([97])] && LeafOf([97, 47, 47]) == []
  {
    hide ShortName, NamesOf;
    var path := [97, SLASH, SLASH];
    assert Stripped(path) == [97, SLASH];
    hide Stripped, LastSlash;
    assert DirOf(path) == [97] && LeafOf(path) == [];
    NamesOfPart([97]);
    TrailingSlash([97]);
    assert [97] + [SLASH] == [97, SLASH];
    TrailingSlash([97, SLASH]);
    assert [97, SLASH] + [SLASH] == path;
  }

  lemma LeafIsGood(path: seq<byte>)
    requires 0 !in path && LeafOf(path) != [] && LeafOf(path)[0] != 0xE5
    ensures GoodName(ShortName(LeafOf(path)))
  {
    hide ShortName, LastSlash;
    assert forall c :: c in Stripped(path) ==> c in path;
    assert forall c :: c in LeafOf(path) ==> c in Stripped(path);
    ShortNameIsOrdinary(LeafOf(path));
  }
}
