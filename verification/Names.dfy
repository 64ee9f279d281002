/** Names of system calls, events and socket families (pinktrace/name.c): tables searched from
    the front, and the reordering of ARM system call numbers. */
module Names {
  import opened CTypes

  datatype Option<+T> = None | Some(value: T)

  // ---------------------------------------------------------------------------
  // Shuffling
  // ---------------------------------------------------------------------------

  const ARM_FIRST_SHUFFLED := 388
  const ARM_LAST_SPECIAL := 5
  const ARM_SECOND_SHUFFLED := ARM_FIRST_SHUFFLED + 1
  const ARM_CMPXCHG := 0x000f_fff0
  const ARM_SPECIAL := 0x000f_0000

  /** shuffle_scno. Elsewhere than on ARM it is the identity. */
  function Shuffle(arm: bool, scno: u64): (r: u64) {
    if !arm || scno < ARM_FIRST_SHUFFLED then scno
    else if scno == ARM_FIRST_SHUFFLED then ARM_CMPXCHG
    else if scno == ARM_CMPXCHG then ARM_FIRST_SHUFFLED
    else if ARM_SPECIAL <= scno <= ARM_SPECIAL + ARM_LAST_SPECIAL then scno - ARM_SPECIAL + ARM_SECOND_SHUFFLED
    else if scno <= ARM_SECOND_SHUFFLED + ARM_LAST_SPECIAL then scno + ARM_SPECIAL - ARM_SECOND_SHUFFLED
    else scno
  }

  /** Shuffling twice is not shuffling. */
  lemma ShuffleInvolution(arm: bool, scno: u64)
    ensures Shuffle(arm, Shuffle(arm, scno)) == scno
  {
  }

  /** The ARM numbers are brought together right after the ordinary ones, and nothing else is
      moved into their place. */
  lemma ShuffleClosesGap(scno: u64)
    ensures ARM_FIRST_SHUFFLED <= Shuffle(true, scno) <= ARM_SECOND_SHUFFLED + ARM_LAST_SPECIAL
            <==> scno == ARM_CMPXCHG || ARM_SPECIAL <= scno <= ARM_SPECIAL + ARM_LAST_SPECIAL
  {
  }

  /** The ARM numbers keep their order, with the one of cmpxchg first. */
  lemma ShuffleKeepsOrder(x: u64, y: u64)
    requires ARM_SPECIAL <= x < y <= ARM_SPECIAL + ARM_LAST_SPECIAL
    ensures Shuffle(true, ARM_CMPXCHG) < Shuffle(true, x) < Shuffle(true, y)
  {
  }

  /** A number moves exactly if it is an ARM one or in the place of one. */
  lemma ShuffleMovesIff(scno: u64)
    ensures Shuffle(true, scno) != scno
            <==> 388 <= scno <= 394 || 0x000f_0000 <= scno <= 0x000f_0005 || scno == 0x000f_fff0
    ensures Shuffle(false, scno) == scno
  {
  }

  /** Where the ARM numbers are in the table: from 388 on, cmpxchg and then the others in turn. */
  lemma ShufflePositions(k: nat)
    requires k <= 5
    ensures Shuffle(true, 0x000f_fff0) == 388 && Shuffle(true, 0x000f_0000 + k) == 389 + k
  {
  }

  // ---------------------------------------------------------------------------
  // System calls, errors and signals
  // ---------------------------------------------------------------------------

  type Table = t: seq<Option<string>> | |t| < TWO31 witness []

  /** pink_name_syscall. Without shuffling this is pink_name_errno and pink_name_signal too. */
  function Name(tables: seq<Table>, arm: bool, scno: int, abi: int): (r: Option<string>) {
    if abi < 0 || abi >= |tables| then None
    else
      var n := Signed(Shuffle(arm, Unsigned(scno, 8)), 8);
      if n < 0 || n >= |tables[abi]| then None else tables[abi][n]
  }

  /** What pink_lookup_syscall returns when it finds its name at position `i`. */
  function NumberOf(arm: bool, i: nat): (scno: int)
    requires i < TWO31
  {
    Signed(Shuffle(arm, i), 8)
  }

  /** Small numbers are the same signed and unsigned. */
  lemma SmallNumber(n: int)
    requires IsSigned(n, 8)
    ensures n >= 0 ==> Unsigned(n, 8) == n && Signed(n, 8) == n
    ensures n < 0 ==> Unsigned(n, 8) == n + TWO64 && Signed(n, 8) == n
  {
    UnsignedOnce(n, 8);
  }

  /** Shuffling stays among the numbers that are not negative as signed ones. */
  lemma ShuffleKeepsSign(arm: bool, u: u64)
    ensures Shuffle(arm, u) < TWO63 <==> u < TWO63
    ensures u >= TWO63 ==> Shuffle(arm, u) == u
  {
  }

  /** The position that a number stands for, and the number that a position stands for. */
  lemma PositionIff(arm: bool, i: nat, scno: int)
    requires i < TWO31 && IsSigned(scno, 8)
    ensures NumberOf(arm, i) == scno <==> Signed(Shuffle(arm, Unsigned(scno, 8)), 8) == i
  {
    var u := Unsigned(scno, 8);
    SmallNumber(scno);
    ShuffleInvolution(arm, u);
    ShuffleInvolution(arm, i);
    ShuffleKeepsSign(arm, u);
    ShuffleKeepsSign(arm, i);
    SmallNumber(Shuffle(arm, i));
    if u < TWO63 {
      SmallNumber(Shuffle(arm, u));
    } else {
      SmallNumber(scno);
    }
  }

  /** A number found at a position leads back to that position. */
  lemma NumberLeadsBack(tables: seq<Table>, arm: bool, abi: int, i: nat)
    requires 0 <= abi < |tables| && i < |tables[abi]|
    ensures NumberOf(arm, i) >= 0 && Name(tables, arm, NumberOf(arm, i), abi) == tables[abi][i]
  {
    ShuffleKeepsSign(arm, i);
    SmallNumber(Shuffle(arm, i));
    PositionIff(arm, i, NumberOf(arm, i));
  }

  /** Negative numbers have no name. */
  lemma NoNegativeName(tables: seq<Table>, arm: bool, scno: int, abi: int)
    requires IsSigned(scno, 8) && scno < 0
    ensures Name(tables, arm, scno, abi) == None
  {
    SmallNumber(scno);
    ShuffleKeepsSign(arm, Unsigned(scno, 8));
    UnsignedOnce(scno + TWO64, 8);
  }

  /** A name that can be looked up: given, not empty, in an existing table. */
  predicate Findable(tables: seq<Table>, name: Option<string>, abi: int) {
    name.Some? && name.value != "" && 0 <= abi < |tables| && name in tables[abi]
  }

  /** The first entry of a table with this name is entry `i`. */
  predicate IsFirst(table: Table, name: Option<string>, i: nat) {
    i < |table| && table[i] == name && name !in table[..i]
  }

  /** What pink_lookup_syscall returns: the number of the first entry with the name, or -1. */
  ghost predicate IsLookup(tables: seq<Table>, arm: bool, name: Option<string>, abi: int, scno: int) {
    if Findable(tables, name, abi) then
      exists i: nat :: IsFirst(tables[abi], name, i) && scno == NumberOf(arm, i)
    else scno == -1
  }

  /** pink_lookup_syscall: what it finds has the name that was asked for. */
  method Lookup(tables: seq<Table>, arm: bool, name: Option<string>, abi: int) returns (scno: int)
    ensures scno != -1 <==> Findable(tables, name, abi)
    ensures scno != -1 ==> Name(tables, arm, scno, abi) == name
    ensures IsLookup(tables, arm, name, abi, scno)
  {
    if name == None || name.value == "" {
      return -1;
    }
    if abi < 0 || abi >= |tables| {
      return -1;
    }
    var i := 0;
    while i < |tables[abi]|
      invariant 0 <= i <= |tables[abi]|
      invariant name !in tables[abi][..i]
    {
      if tables[abi][i] == name {
        NumberLeadsBack(tables, arm, abi, i);
        assert IsFirst(tables[abi], name, i);
        return NumberOf(arm, i);
      }
      i := i + 1;
    }
    return -1;
  }

  /** Looking up the name of a number gives that number exactly when the name is not empty and no
      earlier entry has it; several tables do repeat names. */
  lemma NameThenLookupIff(tables: seq<Table>, arm: bool, scno: int, abi: int, found: int)
    requires IsSigned(scno, 8) && Name(tables, arm, scno, abi).Some?
    requires IsLookup(tables, arm, Name(tables, arm, scno, abi), abi, found)
    ensures var name := Name(tables, arm, scno, abi);
            found == scno
            <==> name != Some("") && name !in tables[abi][..Signed(Shuffle(arm, Unsigned(scno, 8)), 8)]
  {
    var name, k := Name(tables, arm, scno, abi), Signed(Shuffle(arm, Unsigned(scno, 8)), 8);
    if name == Some("") {
      if scno < 0 {
        NoNegativeName(tables, arm, scno, abi);
      }
    } else {
      var i: nat :| IsFirst(tables[abi], name, i) && found == NumberOf(arm, i);
      PositionIff(arm, i, scno);
      FirstIff(tables[abi], name, i, k);
    }
  }

  lemma FirstIff(table: Table, name: Option<string>, i: nat, k: nat)
    requires IsFirst(table, name, i) && k < |table| && table[k] == name
    ensures k == i <==> name !in table[..k]
  {
    assert forall j :: 0 <= j < i ==> table[..i][j] == table[j];
    if k != i {
      assert table[..k][i] == table[i];
    }
  }

  // ---------------------------------------------------------------------------
  // Events, socket families and subcalls
  // ---------------------------------------------------------------------------

  datatype Xlat = Xlat(str: string, val: int)

  /** xname: the first entry with this value. */
  method XName(xs: seq<Xlat>, val: int) returns (r: Option<string>)
    ensures r == None ==> forall i :: 0 <= i < |xs| ==> xs[i].val != val
    ensures r.Some? ==> exists i: nat :: FirstValue(xs, val, i) && r == Some(xs[i].str)
  {
    var i := 0;
    while i < |xs|
      invariant 0 <= i <= |xs|
      invariant forall j :: 0 <= j < i ==> xs[j].val != val
    {
      if xs[i].val == val {
        assert FirstValue(xs, val, i);
        return Some(xs[i].str);
      }
      i := i + 1;
    }
    return None;
  }

  /** xlookup: the value of the first entry with this string. */
  method XLookup(xs: seq<Xlat>, str: Option<string>) returns (r: int)
    ensures r != -1 ==> str.Some? && str.value != "" && exists i: nat :: FirstStr(xs, str.value, i) && r == xs[i].val
    ensures r == -1 ==>
              || str == None || str.value == ""
              || (exists i: nat :: FirstStr(xs, str.value, i) && xs[i].val == -1)
              || (forall i :: 0 <= i < |xs| ==> xs[i].str != str.value)
  {
    if str == None || str.value == "" {
      return -1;
    }
    var i := 0;
    while i < |xs|
      invariant 0 <= i <= |xs|
      invariant forall j :: 0 <= j < i ==> xs[j].str != str.value
    {
      if xs[i].str == str.value {
        assert FirstStr(xs, str.value, i);
        return xs[i].val;
      }
      i := i + 1;
    }
    return -1;
  }

  predicate FirstValue(xs: seq<Xlat>, val: int, i: nat) {
    i < |xs| && xs[i].val == val && forall j :: 0 <= j < i ==> xs[j].val != val
  }

  predicate FirstStr(xs: seq<Xlat>, str: string, i: nat) {
    i < |xs| && xs[i].str == str && forall j :: 0 <= j < i ==> xs[j].str != str
  }

  /** A string found by its value is the one looked up exactly when no earlier entry shares the
      value; AF_FILE, AF_LOCAL and AF_UNIX do. */
  lemma LookupThenNameIff(xs: seq<Xlat>, str: string, i: nat, k: nat)
    requires FirstStr(xs, str, i) && FirstValue(xs, xs[i].val, k)
    ensures xs[k].str == str <==> forall j :: 0 <= j < i ==> xs[j].val != xs[i].val
  {
    if k < i {
      assert xs[k].str != str && xs[k].val == xs[i].val;
    }
  }
}
