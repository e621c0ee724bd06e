/**
 Who holds a key and who updates it: the lists that populate the servers, the key file that names the
 server of each key, and the share of each update machine in a round.
 */
module Placement {
  import opened Common
  import opened KeyNames
  import opened ServerRefinement
  import Decimal
  import Wire

  // ---- Strided loops ----

  /** for (k = start; k < total; k += step) */
  function Stride(start: nat, step: nat, total: nat): (ks: seq<nat>)
    requires step > 0
    ensures forall i :: 0 <= i < |ks| ==> ks[i] < total
    decreases total - start
  {
    if start >= total then [] else [start] + Stride(start + step, step, total)
  }

  /** How often k occurs. */
  function Count(ks: seq<nat>, k: nat): nat {
    if ks == [] then 0 else (if ks[0] == k then 1 else 0) + Count(ks[1..], k)
  }

  lemma {:induction false} CountBoth(a: seq<nat>, b: seq<nat>, k: nat)
    ensures Count(a + b, k) == Count(a, k) + Count(b, k)
    decreases |a|
  {
    if a == [] {
      assert a + b == b;
    } else {
      assert (a + b)[1..] == a[1..] + b;
      CountBoth(a[1..], b, k);
    }
  }

  lemma {:induction false} CountIsMembership(ks: seq<nat>, k: nat)
    ensures Count(ks, k) > 0 <==> k in ks
    decreases |ks|
  {
    if ks != [] {
      CountIsMembership(ks[1..], k);
      assert ks == [ks[0]] + ks[1..];
    }
  }

  ghost predicate OnStride(start: nat, step: nat, k: nat) {
    exists q: nat :: k == start + q * step
  }

  lemma OnStrideNext(start: nat, step: nat, k: nat)
    requires step > 0
    ensures OnStride(start, step, k) <==> k == start || OnStride(start + step, step, k)
  {
    if OnStride(start, step, k) && k != start {
      var q: nat :| k == start + q * step;
      assert k == (start + step) + (q - 1) * step;
    }
    if OnStride(start + step, step, k) {
      var q: nat :| k == (start + step) + q * step;
      assert k == start + (q + 1) * step;
    }
    if k == start {
      assert k == start + 0 * step;
    }
  }

  /** Below the step, the strides are the classes modulo the step. */
  lemma OnStrideIff(start: nat, step: nat, k: nat)
    requires start < step
    ensures OnStride(start, step, k) <==> k % step == start
  {
    DivMod(k, step);
    if OnStride(start, step, k) {
      var q: nat :| k == start + q * step;
      QuotientIsUnique(step, q, start, Div(k, step), Mod(k, step));
    }
    if k % step == start {
      assert k == start + Div(k, step) * step;
    }
  }

  lemma OnStrideAhead(start: nat, step: nat, k: nat)
    requires OnStride(start, step, k)
    ensures k >= start
  {
  }

  /** A strided loop meets the members of its class below the total, each of them once. */
  lemma {:induction false} StrideCount(start: nat, step: nat, total: nat, k: nat)
    requires step > 0
    ensures Count(Stride(start, step, total), k) == if k < total && OnStride(start, step, k) then 1 else 0
    decreases total - start
  {
    if start < total {
      hide OnStride;
      StrideCount(start + step, step, total, k);
      OnStrideNext(start, step, k);
      if OnStride(start + step, step, start) { OnStrideAhead(start + step, step, start); }
      var rest := Stride(start + step, step, total);
      assert ([start] + rest)[1..] == rest;
    } else if OnStride(start, step, k) {
      OnStrideAhead(start, step, k);
    }
  }

  // ---- A round of updates ----

  /** The indices that the first n of the machines visit, machine after machine. */
  function Visited(machines: nat, total: nat, n: nat): (ks: seq<nat>)
    requires n <= machines
    ensures forall i :: 0 <= i < |ks| ==> ks[i] < total
  {
    if n == 0 then [] else Visited(machines, total, n - 1) + Stride(n - 1, machines, total)
  }

  lemma {:induction false} VisitedCount(machines: nat, total: nat, n: nat, k: nat)
    requires n <= machines && machines > 0
    ensures Count(Visited(machines, total, n), k) == if k < total && k % machines < n then 1 else 0
  {
    hide OnStride, Stride;
    if n > 0 {
      CountBoth(Visited(machines, total, n - 1), Stride(n - 1, machines, total), k);
      VisitedCount(machines, total, n - 1, k);
      StrideCount(n - 1, machines, total, k);
      OnStrideIff(n - 1, machines, k);
    }
  }

  /** In one round the machines together visit every key exactly once. */
  lemma RoundVisitsEachKeyOnce(machines: nat, total: nat, k: nat)
    requires machines > 0
    ensures Count(Visited(machines, total, machines), k) == if k < total then 1 else 0
  {
    VisitedCount(machines, total, machines, k);
  }

  /** "START index offset", as the coordinator sends it to a machine. */
  function StartCommand(index: nat, offset: nat): string {
    "START " + (Decimal.Text(index) + " " + Decimal.Text(offset))
  }

  lemma TextIsClean(n: nat)
    ensures Wire.Clean(Decimal.Text(n), ' ')
  {
  }

  /** The machine reads back the pair that the coordinator assigned. */
  lemma StartRoundTrip(index: nat, offset: nat)
    ensures Wire.Tokens(StartCommand(index, offset), ' ') == ["START", Decimal.Text(index), Decimal.Text(offset)]
    ensures Decimal.Atoi(Decimal.Text(index)) == index && Decimal.Atoi(Decimal.Text(offset)) == offset
  {
    TextIsClean(index);
    TextIsClean(offset);
    assert "START " == "START" + [' '];
    Wire.TokenThenText("START", Decimal.Text(index) + " " + Decimal.Text(offset), ' ');
    Wire.TokenThenText(Decimal.Text(index), Decimal.Text(offset), ' ');
    Wire.OneToken(Decimal.Text(offset), ' ');
    Decimal.AtoiUndoesText(index);
    Decimal.AtoiUndoesText(offset);
  }

  datatype Line = Line(name: string, address: string)

  /** The lines of the key file that a machine acts on, in order. */
  function Contacts(file: seq<Line>, ks: seq<nat>): (r: seq<Line>)
    requires forall i :: 0 <= i < |ks| ==> ks[i] < |file|
    ensures |r| == |ks| && forall i :: 0 <= i < |ks| ==> r[i] == file[ks[i]]
  {
    seq(|ks|, i requires 0 <= i < |ks| => file[ks[i]])
  }

  /** An update machine on a START command: one update for each index of its stride. */
  method RunStart(command: string, file: array<Line>) returns (contacts: seq<Line>)
    requires |Wire.Tokens(command, ' ')| >= 3 && Decimal.Atoi(Wire.Tokens(command, ' ')[2]) > 0
    ensures var words := Wire.Tokens(command, ' ');
            contacts == Contacts(file[..], Stride(Decimal.Atoi(words[1]), Decimal.Atoi(words[2]), file.Length))
  {
    var words := Wire.Split(command, ' ');
    var start, step := Decimal.Atoi(words[1]), Decimal.Atoi(words[2]);
    ghost var all := Stride(start, step, file.Length);
    contacts := [];
    var key := start;
    while key < file.Length
      invariant |contacts| <= |all| && all[|contacts|..] == Stride(key, step, file.Length)
      invariant forall i :: 0 <= i < |contacts| ==> contacts[i] == file[all[i]]
      decreases file.Length - key
    {
      assert all[|contacts|] == key;
      assert all[|contacts|..][1..] == all[|contacts| + 1..];
      contacts := contacts + [file[key]];
      key := key + step;
    }
  }

  /** The coordinator's part of a round, and what each machine does with its command. */
  method RunRound(machines: nat, file: array<Line>) returns (contacts: seq<Line>)
    ensures contacts == Contacts(file[..], Visited(machines, file.Length, machines))
  {
    contacts := [];
    for i := 0 to machines
      invariant contacts == Contacts(file[..], Visited(machines, file.Length, i))
    {
      StartRoundTrip(i, machines);
      var more := RunStart(StartCommand(i, machines), file);
      contacts := contacts + more;
    }
  }

  // ---- Populating the servers ----

  /** The store keys of one kind for the indices of a server. */
  function StoreKeys(kind: Kind, ks: seq<nat>): (r: seq<string>)
    ensures |r| == |ks| && forall i :: 0 <= i < |ks| ==> r[i] == Key(kind, Name(ks[i], KEY_SIZE))
  {
    seq(|ks|, i requires 0 <= i < |ks| => Key(kind, Name(ks[i], KEY_SIZE)))
  }

  function Listing(kind: Kind, server: nat, servers: nat, total: nat): string
    requires servers > 0
  {
    Wire.Join(StoreKeys(kind, Stride(server, servers, total)), ' ')
  }

  lemma ListingStep(kind: Kind, start: nat, step: nat, total: nat)
    requires step > 0 && start < total
    ensures Listing(kind, start, step, total)
            == Key(kind, Name(start, KEY_SIZE)) + (if start + step < total then " " else "")
               + Listing(kind, start + step, step, total)
  {
    hide Key, Name;
    var rest := Stride(start + step, step, total);
    var ts := StoreKeys(kind, Stride(start, step, total));
    assert ts[1..] == StoreKeys(kind, rest);
    assert rest == [] <==> start + step >= total;
  }

  /** The list a server is populated with: names separated by spaces, with no space after the last one. */
  method BuildListing(kind: Kind, names: array<string>, server: nat, servers: nat) returns (list: string)
    requires servers > 0 && forall i :: 0 <= i < names.Length ==> names[i] == Name(i, KEY_SIZE)
    ensures list == Listing(kind, server, servers, names.Length)
  {
    hide Listing, Name;
    list := "";
    var j := server;
    while j < names.Length
      invariant list + Listing(kind, j, servers, names.Length) == Listing(kind, server, servers, names.Length)
      decreases names.Length - j
    {
      ListingStep(kind, j, servers, names.Length);
      assert names[j] == Name(j, KEY_SIZE);
      AppendListed(list, Prefix(kind), names[j], Listing(kind, j + servers, servers, names.Length));
      list := list + Prefix(kind) + names[j];
      if j + servers < names.Length {
        list := list + " ";
      }
      j := j + servers;
    }
    NothingListed(kind, j, servers, names.Length);
  }

  lemma AppendListed(list: string, prefix: string, name: string, rest: string)
    ensures list + (prefix + name + " " + rest) == (list + prefix + name + " ") + rest
    ensures list + (prefix + name + "" + rest) == (list + prefix + name) + rest
  {
  }

  lemma NothingListed(kind: Kind, start: nat, step: nat, total: nat)
    requires step > 0 && start >= total
    ensures Listing(kind, start, step, total) == ""
  {
  }

  lemma StoreKeyIsClean(kind: Kind, i: nat)
    ensures Wire.Clean(Key(kind, Name(i, KEY_SIZE)), ' ')
  {
    assert forall j :: 0 <= j < |Prefix(kind)| ==> Prefix(kind)[j] != ' ';
  }

  /**
   Every value of a key is populated on exactly one server, the one that the key file names, as long as
   there are at most 26^5 keys in all.
   */
  lemma KeyOnExactlyItsServer(kind: Kind, k: nat, server: nat, servers: nat, total: nat)
    requires server < servers && k < total <= DISTINCT_NAMES
    ensures Key(kind, Name(k, KEY_SIZE)) in Wire.Tokens(Listing(kind, server, servers, total), ' ')
            <==> server == k % servers
  {
    var ks := Stride(server, servers, total);
    var ts := StoreKeys(kind, ks);
    forall i | 0 <= i < |ts| ensures Wire.Clean(ts[i], ' ') { StoreKeyIsClean(kind, ks[i]); }
    Wire.CleanJoinSplits(ts, ' ');
    StrideCount(server, servers, total, k);
    OnStrideIff(server, servers, k);
    CountIsMembership(ks, k);
    NamesAreDistinctIff(total);
    forall i | 0 <= i < |ts| ensures ts[i] == Key(kind, Name(k, KEY_SIZE)) <==> ks[i] == k {
      KeysDiffer(kind, Name(ks[i], KEY_SIZE), kind, Name(k, KEY_SIZE));
    }
  }

  // ---- The key file ----

  /** fprintf(fp, "%s %s\n", name, address) */
  function FileText(line: Line): string {
    line.name + " " + (line.address + "\n")
  }

  function Chop(s: string): string {
    if s == "" then "" else s[..|s| - 1]
  }

  /** A line of the file as an update machine reads it; a line of any other shape leaves its slot unset. */
  method ReadLine(text: string) returns (line: Option<Line>)
    ensures var words := Wire.Tokens(text, ' ');
            line == if |words| == 2 then Some(Line(words[0], Chop(words[1]))) else None
  {
    Wire.TokensAreClean(text, 0, ' ');
    var words := Wire.Split(text, ' ');
    if words.Length == 2 {
      return Some(Line(words[0], Chop(words[1])));
    }
    return None;
  }

  method WriteKeyFile(names: array<string>, addresses: array<string>) returns (file: array<string>)
    requires addresses.Length > 0
    ensures fresh(file) && file.Length == names.Length
    ensures forall i :: 0 <= i < names.Length ==> file[i] == FileText(Line(names[i], addresses[i % addresses.Length]))
  {
    file := new string[names.Length];
    for i := 0 to names.Length
      invariant forall k :: 0 <= k < i ==> file[k] == FileText(Line(names[k], addresses[k % addresses.Length]))
    {
      file[i] := FileText(Line(names[i], addresses[i % addresses.Length]));
    }
  }

  /** A line is the name, a space, the address and a newline. */
  lemma FileTextIs(line: Line)
    ensures FileText(line) == line.name + " " + line.address + "\n"
  {
    assert line.name + " " + (line.address + "\n") == line.name + " " + line.address + "\n";
  }

  /** What is written is read back. */
  lemma FileLineRoundTrip(line: Line)
    requires Wire.Clean(line.name, ' ') && forall i :: 0 <= i < |line.address| ==> line.address[i] != ' '
    ensures var words := Wire.Tokens(FileText(line), ' ');
            |words| == 2 && Line(words[0], Chop(words[1])) == line
  {
    Wire.TokenThenText(line.name, line.address + "\n", ' ');
    Wire.OneToken(line.address + "\n", ' ');
    assert (line.address + "\n")[..|line.address|] == line.address;
  }
}
