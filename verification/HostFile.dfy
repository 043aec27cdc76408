/** Reading a host file: its entries, already decoded, become Hosts with distinct, valid names. */
module HostFiles {
  import opened Wrappers
  import opened HostPatterns

  /** Names every Host at once, and so may not be declared. */
  const ALL: string := "all"

  datatype Entry = Entry(name: string, user: Option<string>, port: Option<nat>, ip: Option<string>, uniquePass: bool)

  datatype Host = Host(name: string, user: Option<string>, port: Option<nat>, ip: Option<string>, uniquePass: bool)

  type Groups = map<string, seq<string>>

  datatype HostFile = HostFile(hosts: seq<Host>, groups: Groups)

  /** Why a file is refused, naming entries by position. */
  datatype ParseError =
    | BadUser(entry: nat)
    | IpOnPattern(entry: nat)
    | BadPattern(entry: nat, why: ExpandError)
    | BadName(entry: nat, name: string)
    | DeclaredTwice(first: nat, second: nat, name: string)
    | ReservedGroup

  predicate IsPlain(c: char) {
    'a' <= c <= 'z' || 'A' <= c <= 'Z' || '0' <= c <= '9' || c == '.' || c == '_' || c == '-'
  }

  predicate AllPlain(s: string) {
    s == "" || (IsPlain(s[0]) && AllPlain(s[1..]))
  }

  predicate ValidName(name: string) {
    name != "" && name[0] != '-' && AllPlain(name)
  }

  predicate ValidUser(user: string) {
    user != "" && AllPlain(user)
  }

  // ----- what a good file is -----

  /** An entry, and what its name expands to. */
  datatype Row = Row(entry: Entry, names: Result<seq<string>, ExpandError>)

  ghost function Rows(entries: seq<Entry>): (rows: seq<Row>)
    ensures |rows| == |entries|
  {
    if entries == [] then []
    else
      var last := entries[|entries| - 1];
      Rows(entries[..|entries| - 1]) + [Row(last, Expansion(last.name))]
  }

  lemma {:induction false} RowAt(entries: seq<Entry>, i: nat)
    requires i < |entries|
    ensures Rows(entries)[i] == Row(entries[i], Expansion(entries[i].name))
    decreases |entries|
  {
    if i < |entries| - 1 {
      RowAt(entries[..|entries| - 1], i);
    }
  }

  predicate AllValid(names: seq<string>) {
    names == [] || (ValidName(names[|names| - 1]) && AllValid(names[..|names| - 1]))
  }

  /** An entry rshx accepts on its own. */
  ghost predicate RowOk(row: Row) {
    && (row.entry.user.Some? ==> ValidUser(row.entry.user.value))
    && (row.entry.ip.Some? ==> '[' !in row.entry.name)
    && row.names.Success? && AllValid(row.names.value)
  }

  ghost predicate RowsOk(rows: seq<Row>) {
    rows == [] || (RowsOk(rows[..|rows| - 1]) && RowOk(rows[|rows| - 1]))
  }

  function MakeHost(e: Entry, name: string): Host {
    Host(name, e.user, e.port, e.ip, e.uniquePass)
  }

  function MakeHosts(e: Entry, names: seq<string>): seq<Host> {
    if names == [] then [] else MakeHosts(e, names[..|names| - 1]) + [MakeHost(e, names[|names| - 1])]
  }

  /** Every entry's expansion, in file order. */
  ghost function AllHosts(rows: seq<Row>): seq<Host> {
    if rows == [] then []
    else
      var last := rows[|rows| - 1];
      AllHosts(rows[..|rows| - 1]) + if last.names.Success? then MakeHosts(last.entry, last.names.value) else []
  }

  predicate DistinctNames(hosts: seq<Host>) {
    forall j, k :: 0 <= j < k < |hosts| ==> hosts[j].name != hosts[k].name
  }

  ghost predicate GoodFile(entries: seq<Entry>, groups: Groups) {
    RowsOk(Rows(entries)) && DistinctNames(AllHosts(Rows(entries))) && ALL !in groups
  }

  lemma {:induction false} EarlierRowsOk(rows: seq<Row>, n: nat)
    requires n <= |rows| && RowsOk(rows)
    ensures RowsOk(rows[..n])
    ensures n < |rows| ==> RowOk(rows[n])
    decreases |rows|
  {
    if n == |rows| {
      assert rows[..n] == rows;
    } else {
      var front := rows[..|rows| - 1];
      EarlierRowsOk(front, n);
      assert front[..n] == rows[..n];
    }
  }

  lemma {:induction false} EarlierHostsFirst(rows: seq<Row>, n: nat)
    requires n <= |rows|
    ensures AllHosts(rows[..n]) <= AllHosts(rows)
    decreases |rows|
  {
    if n == |rows| {
      assert rows[..n] == rows;
    } else {
      var front := rows[..|rows| - 1];
      EarlierHostsFirst(front, n);
      assert front[..n] == rows[..n];
    }
  }

  lemma {:induction false} EarlierNamesFirst(e: Entry, names: seq<string>, n: nat)
    requires n <= |names|
    ensures MakeHosts(e, names[..n]) <= MakeHosts(e, names)
    decreases |names|
  {
    if n == |names| {
      assert names[..n] == names;
    } else {
      var front := names[..|names| - 1];
      EarlierNamesFirst(e, front, n);
      assert front[..n] == names[..n];
    }
  }

  lemma {:induction false} EachIsValid(names: seq<string>, k: nat)
    requires AllValid(names) && k < |names|
    ensures ValidName(names[k])
    decreases |names|
  {
    if k < |names| - 1 {
      EachIsValid(names[..|names| - 1], k);
    }
  }

  // ----- reading it -----

  function NameSet(hosts: seq<Host>): set<string> {
    set k | 0 <= k < |hosts| :: hosts[k].name
  }

  ghost predicate Declares(row: Row, name: string) {
    row.names.Success? && name in row.names.value
  }

  /** Who, among the first `n` entries, declared each name so far. */
  ghost predicate DeclaredBy(rows: seq<Row>, n: nat, hosts: seq<Host>, declared: map<string, nat>)
    requires n <= |rows|
  {
    && declared.Keys == NameSet(hosts)
    && forall name :: name in declared ==> declared[name] < n && FirstDeclares(rows, declared[name], name)
  }

  /** The row declares the name, and none before it does. */
  ghost predicate FirstDeclares(rows: seq<Row>, first: nat, name: string)
    requires first < |rows|
  {
    Declares(rows[first], name) && forall j :: 0 <= j < first ==> !Declares(rows[j], name)
  }

  /** Everything the first `m` entries declare is in hand. */
  ghost predicate InHand(rows: seq<Row>, m: nat, declared: map<string, nat>)
    requires m <= |rows|
  {
    forall j, name :: 0 <= j < m && Declares(rows[j], name) ==> name in declared
  }

  ghost predicate TwiceIn(names: seq<string>, name: string) {
    exists a, b :: 0 <= a < b < |names| && names[a] == name && names[b] == name
  }

  /** Whether the error is one the file really has. */
  ghost predicate TrueOf(error: ParseError, rows: seq<Row>, groups: Groups) {
    match error
    case BadUser(i) => i < |rows| && rows[i].entry.user.Some? && !ValidUser(rows[i].entry.user.value)
    case IpOnPattern(i) => i < |rows| && rows[i].entry.ip.Some? && '[' in rows[i].entry.name
    case BadPattern(i, why) => i < |rows| && rows[i].names == Failure(why)
    case BadName(i, name) => i < |rows| && Declares(rows[i], name) && !ValidName(name)
    case DeclaredTwice(first, second, name) =>
      && first <= second < |rows| && FirstDeclares(rows, first, name) && Declares(rows[second], name)
      && (first == second ==> TwiceIn(rows[second].names.value, name))
    case ReservedGroup => ALL in groups
  }

  method Parse(entries: seq<Entry>, groups: Groups) returns (r: Result<HostFile, ParseError>)
    ensures r.Success? <==> GoodFile(entries, groups)
    ensures r.Success? ==> r.value == HostFile(AllHosts(Rows(entries)), groups)
    ensures r.Failure? ==> TrueOf(r.error, Rows(entries), groups)
  {
    ghost var rows := Rows(entries);
    var hosts: seq<Host>, declared: map<string, nat> := [], map[];
    var i := 0;
    while i < |entries|
      invariant 0 <= i <= |entries|
      invariant RowsOk(rows[..i]) && hosts == AllHosts(rows[..i])
      invariant DistinctNames(hosts) && DeclaredBy(rows, i, hosts, declared) && InHand(rows, i, declared)
    {
      var names := ExpandEntry(entries, i);
      var error;
      error, hosts, declared := ReadEntry(rows, i, entries[i], names, hosts, declared);
      if error.Some? {
        return Failure(error.value);
      }
      i := i + 1;
    }
    assert rows[..i] == rows;
    if ALL in groups {
      return Failure(ReservedGroup);
    }
    return Success(HostFile(hosts, groups));
  }

  method ExpandEntry(entries: seq<Entry>, i: nat) returns (names: Result<seq<string>, ExpandError>)
    requires i < |entries|
    ensures Rows(entries)[i] == Row(entries[i], names)
  {
    RowAt(entries, i);
    names := Expand(entries[i].name);
  }

  /** Checks one entry, and declares its names. */
  method ReadEntry(ghost rows: seq<Row>, i: nat, e: Entry, names: Result<seq<string>, ExpandError>,
                   hosts0: seq<Host>, declared0: map<string, nat>)
    returns (error: Option<ParseError>, hosts: seq<Host>, declared: map<string, nat>)
    requires i < |rows| && rows[i] == Row(e, names) && RowsOk(rows[..i]) && hosts0 == AllHosts(rows[..i])
    requires DistinctNames(hosts0) && DeclaredBy(rows, i, hosts0, declared0) && InHand(rows, i, declared0)
    ensures error.None? ==>
              && RowsOk(rows[..i + 1]) && hosts == AllHosts(rows[..i + 1])
              && DistinctNames(hosts) && DeclaredBy(rows, i + 1, hosts, declared) && InHand(rows, i + 1, declared)
    ensures error.Some? ==> TrueOf(error.value, rows, map[]) && !(RowsOk(rows) && DistinctNames(AllHosts(rows)))
  {
    hosts, declared := hosts0, declared0;
    ghost var upto := rows[..i + 1];
    assert upto[..|upto| - 1] == rows[..i] && upto[|upto| - 1] == rows[i];
    if RowsOk(rows) {
      EarlierRowsOk(rows, i);
    }
    if e.user.Some? && !ValidUser(e.user.value) {
      return Some(BadUser(i)), hosts, declared;
    }
    if e.ip.Some? && '[' in e.name {
      return Some(IpOnPattern(i)), hosts, declared;
    }
    if names.Failure? {
      return Some(BadPattern(i, names.error)), hosts, declared;
    }
    error, hosts, declared := Declare(rows, i, e, names.value, hosts0, declared0);
    if error.Some? {
      EarlierHostsFirst(rows, i + 1);
    }
  }

  /** Declares one entry's names, each once in the whole file. */
  method Declare(ghost rows: seq<Row>, i: nat, e: Entry, names: seq<string>, hosts0: seq<Host>, declared0: map<string, nat>)
    returns (error: Option<ParseError>, hosts: seq<Host>, declared: map<string, nat>)
    requires i < |rows| && rows[i] == Row(e, Success(names))
    requires DistinctNames(hosts0) && DeclaredBy(rows, i, hosts0, declared0) && InHand(rows, i, declared0)
    ensures error.None? ==>
              && hosts == hosts0 + MakeHosts(e, names) && AllValid(names)
              && DistinctNames(hosts) && DeclaredBy(rows, i + 1, hosts, declared) && InHand(rows, i + 1, declared)
    ensures error.Some? ==> TrueOf(error.value, rows, map[])
    ensures error.Some? ==> !AllValid(names) || !DistinctNames(hosts0 + MakeHosts(e, names))
  {
    hosts, declared, error := hosts0, declared0, None;
    var k := 0;
    assert hosts0 + [] == hosts0;
    while k < |names|
      invariant 0 <= k <= |names| && error.None? && hosts == hosts0 + MakeHosts(e, names[..k]) && AllValid(names[..k])
      invariant DistinctNames(hosts) && DeclaredBy(rows, i + 1, hosts, declared) && InHand(rows, i, declared)
      invariant FromThis(names, k, i, declared)
    {
      assert names[..k + 1][..k] == names[..k];
      Reassociate(hosts0, MakeHosts(e, names[..k]), [MakeHost(e, names[k])]);
      ghost var before := hosts;
      error, hosts, declared := DeclareOne(rows, i, e, names, k, hosts, declared);
      if error.Some? {
        NamesAreBad(hosts0, before, e, names, k);
        return;
      }
      k := k + 1;
    }
    assert names[..k] == names;
    AllInHand(rows, i, names, declared);
  }

  lemma AllInHand(rows: seq<Row>, i: nat, names: seq<string>, declared: map<string, nat>)
    requires i < |rows| && rows[i].names == Success(names)
    requires InHand(rows, i, declared) && FromThis(names, |names|, i, declared)
    ensures InHand(rows, i + 1, declared)
  {
  }

  lemma NamesAreBad(hosts0: seq<Host>, before: seq<Host>, e: Entry, names: seq<string>, k: nat)
    requires k < |names| && before == hosts0 + MakeHosts(e, names[..k])
    requires !ValidName(names[k]) || names[k] in NameSet(before)
    ensures !AllValid(names) || !DistinctNames(hosts0 + MakeHosts(e, names))
  {
    if AllValid(names) {
      EachIsValid(names, k);
      EarlierNamesFirst(e, names, k + 1);
      assert names[..k + 1][..k] == names[..k];
      Reassociate(hosts0, MakeHosts(e, names[..k]), [MakeHost(e, names[k])]);
      TwiceIsNotDistinct(before, MakeHost(e, names[k]), hosts0 + MakeHosts(e, names));
    }
  }

  /** Of an entry's names, the first `k` are in hand, and those it declared are among them. */
  ghost predicate FromThis(names: seq<string>, k: nat, i: nat, declared: map<string, nat>)
    requires k <= |names|
  {
    && (forall a :: 0 <= a < k ==> names[a] in declared)
    && (forall name :: name in declared && declared[name] == i ==> exists a :: 0 <= a < k && names[a] == name)
  }

  method DeclareOne(ghost rows: seq<Row>, i: nat, e: Entry, names: seq<string>, k: nat, hosts0: seq<Host>, declared0: map<string, nat>)
    returns (error: Option<ParseError>, hosts: seq<Host>, declared: map<string, nat>)
    requires i < |rows| && rows[i].names == Success(names) && k < |names|
    requires DistinctNames(hosts0) && DeclaredBy(rows, i + 1, hosts0, declared0) && InHand(rows, i, declared0)
    requires FromThis(names, k, i, declared0)
    ensures error.None? ==>
              && hosts == hosts0 + [MakeHost(e, names[k])] && ValidName(names[k])
              && DistinctNames(hosts) && DeclaredBy(rows, i + 1, hosts, declared) && InHand(rows, i, declared)
              && FromThis(names, k + 1, i, declared)
    ensures error.Some? ==> TrueOf(error.value, rows, map[]) && (!ValidName(names[k]) || names[k] in NameSet(hosts0))
  {
    hosts, declared, error := hosts0, declared0, None;
    var name := names[k];
    if !ValidName(name) {
      error := Some(BadName(i, name));
    } else if name in declared {
      error := Some(DeclaredTwice(declared[name], i, name));
    } else {
      var host := MakeHost(e, name);
      OnceMoreIsDistinct(hosts, host);
      hosts := hosts + [host];
      declared := declared[name := i];
    }
  }

  lemma Reassociate(a: seq<Host>, b: seq<Host>, c: seq<Host>)
    ensures a + (b + c) == a + b + c
  {
  }

  lemma TwiceIsNotDistinct(hosts: seq<Host>, host: Host, whole: seq<Host>)
    requires host.name in NameSet(hosts) && hosts + [host] <= whole
    ensures !DistinctNames(whole)
  {
    var j :| 0 <= j < |hosts| && hosts[j].name == host.name;
    assert whole[j] == (hosts + [host])[j] && whole[|hosts|] == (hosts + [host])[|hosts|];
  }

  lemma OnceMoreIsDistinct(hosts: seq<Host>, host: Host)
    requires DistinctNames(hosts) && host.name !in NameSet(hosts)
    ensures DistinctNames(hosts + [host]) && NameSet(hosts + [host]) == NameSet(hosts) + {host.name}
  {
    var more := hosts + [host];
    forall k | 0 <= k < |hosts| ensures hosts[k].name != host.name {
      assert hosts[k].name in NameSet(hosts);
    }
    forall name ensures name in NameSet(more) <==> name in NameSet(hosts) + {host.name} {
      if name == host.name {
        assert more[|hosts|].name == name;
      } else if name in NameSet(hosts) {
        var k :| 0 <= k < |hosts| && hosts[k].name == name;
        assert more[k].name == name;
      }
    }
  }

  /** Every Host of a good file has a valid name. */
  lemma {:induction false} HostsAreValid(rows: seq<Row>, k: nat)
    requires RowsOk(rows) && k < |AllHosts(rows)|
    ensures ValidName(AllHosts(rows)[k].name)
    decreases |rows|
  {
    var front, last := rows[..|rows| - 1], rows[|rows| - 1];
    if k < |AllHosts(front)| {
      HostsAreValid(front, k);
    } else {
      MadeHostsAreValid(last.entry, last.names.value, k - |AllHosts(front)|);
    }
  }

  lemma {:induction false} MadeHostsAreValid(e: Entry, names: seq<string>, k: nat)
    requires AllValid(names) && k < |MakeHosts(e, names)|
    ensures ValidName(MakeHosts(e, names)[k].name)
    decreases |names|
  {
    if k < |MakeHosts(e, names[..|names| - 1])| {
      MadeHostsAreValid(e, names[..|names| - 1], k);
    }
  }

  /** A Host as its entry describes it, under one of the entry's names. */
  predicate IsFrom(host: Host, e: Entry, name: string) {
    host.name == name && host.user == e.user && host.port == e.port && host.ip == e.ip && host.uniquePass == e.uniquePass
  }

  lemma {:induction false} MadeAt(e: Entry, names: seq<string>, m: nat)
    requires m < |names|
    ensures |MakeHosts(e, names)| == |names| && IsFrom(MakeHosts(e, names)[m], e, names[m])
    decreases |names|
  {
    if m < |names| - 1 {
      MadeAt(e, names[..|names| - 1], m);
    } else if m > 0 {
      MadeAt(e, names[..|names| - 1], m - 1);
    }
  }

  /** Every Host of a file, told by its entry and its place in it: as the entry describes it, in file order. */
  lemma HostAt(rows: seq<Row>, i: nat, m: nat)
    requires i < |rows| && rows[i].names.Success? && m < |rows[i].names.value|
    ensures |AllHosts(rows[..i + 1])| == |AllHosts(rows[..i])| + |rows[i].names.value|
    ensures var at := |AllHosts(rows[..i])| + m;
            at < |AllHosts(rows)| && IsFrom(AllHosts(rows)[at], rows[i].entry, rows[i].names.value[m])
  {
    var upto := rows[..i + 1];
    assert upto[..i] == rows[..i] && upto[i] == rows[i];
    MadeAt(rows[i].entry, rows[i].names.value, m);
    EarlierHostsFirst(rows, i + 1);
    assert AllHosts(upto)[|AllHosts(rows[..i])| + m] == MakeHosts(rows[i].entry, rows[i].names.value)[m];
  }

  // ----- which names are valid -----

  /** By its ASCII code: a small letter, a capital, a digit, or one of dash, dot and underscore. */
  predicate IsNameChar(c: char) {
    var n := c as int;
    97 <= n < 97 + 26 || 65 <= n < 65 + 26 || 48 <= n < 48 + 10 || n == 45 || n == 46 || n == 95
  }

  lemma {:induction false} AllPlainMeans(s: string)
    ensures AllPlain(s) <==> forall k :: 0 <= k < |s| ==> IsPlain(s[k])
    decreases |s|
  {
    if s != "" {
      AllPlainMeans(s[1..]);
      assert forall k :: 0 < k < |s| ==> s[k] == s[1..][k - 1];
    }
  }

  /** A name is letters, digits, dots, underscores and dashes, at least one of them, and no dash first; a user may begin with one. */
  lemma WhichNamesAreValid(name: string)
    ensures ValidName(name) <==>
              name != "" && name[0] != '-' && forall k :: 0 <= k < |name| ==> IsNameChar(name[k])
    ensures ValidUser(name) <==> name != "" && forall k :: 0 <= k < |name| ==> IsNameChar(name[k])
  {
    AllPlainMeans(name);
    assert forall c :: IsPlain(c) <==> IsNameChar(c);
  }
}
