/** The addresses of the processes, and the connect keys built from them. */
module Ports {
  import opened Decimal
  import opened Text

  const PUB: string := "pub"
  const SUB: string := "sub"

  datatype Entry = Entry(kind: string, address: string)

  function KeyOf(i: nat): string {
    "app" + Print(i)
  }

  function KindOf(i: nat): string {
    if i % 2 == 0 then PUB else SUB
  }

  // The address without its brackets, and with them.
  function Pipe(i: nat): string {
    "\"unixpipe/app" + Print(i) + ".pipe\""
  }

  function EntryOf(i: nat): Entry {
    Entry(KindOf(i), "[" + Pipe(i) + "]")
  }

  // Entries of processes 0 .. n-1 and no others.
  ghost predicate ServerList(conf: map<string, Entry>, n: nat) {
    && (forall i: nat :: i < n ==> KeyOf(i) in conf && conf[KeyOf(i)] == EntryOf(i))
    && (forall key :: key in conf ==> exists i: nat :: i < n && key == KeyOf(i))
  }

  lemma {:induction false} KeysDiffer(i: nat, j: nat)
    requires KeyOf(i) == KeyOf(j)
    ensures i == j
  {
    assert KeyOf(i)[3..] == Print(i) && KeyOf(j)[3..] == Print(j);
    PrintInjective(i, j);
  }

  lemma {:induction false} PipesDiffer(i: nat, j: nat)
    requires Pipe(i) == Pipe(j)
    ensures i == j
  {
    var head, tail := "\"unixpipe/app", ".pipe\"";
    assert Pipe(i)[|head|..|Pipe(i)| - |tail|] == Print(i);
    assert Pipe(j)[|head|..|Pipe(j)| - |tail|] == Print(j);
    PrintInjective(i, j);
  }

  // What the entry filed under a key says.
  lemma {:induction false} EntryIsOfItsKey(i: nat)
    ensures KeyOf(i) == "app" + Print(i)
    ensures EntryOf(i).address == "[\"unixpipe/" + KeyOf(i) + ".pipe\"]"
    ensures EntryOf(i).kind == if i % 2 == 0 then "pub" else "sub"
  {
    hide Print;
    assert "[\"unixpipe/" + ("app" + Print(i)) == "[\"unixpipe/app" + Print(i);
    assert "[" + Pipe(i) + "]" == "[\"unixpipe/app" + Print(i) + ".pipe\"]";
  }

  method CreateServerPortlist(numOfProcess: int) returns (conf: map<string, Entry>)
    ensures ServerList(conf, if numOfProcess < 0 then 0 else numOfProcess)
    ensures forall key :: key in conf ==> conf[key].address == "[\"unixpipe/" + key + ".pipe\"]"
    ensures |conf| == if numOfProcess < 0 then 0 else numOfProcess
  {
    hide Print;
    conf := map[];
    var i := 0;
    while i < numOfProcess
      invariant 0 <= i && (i <= numOfProcess || i == 0)
      invariant ServerList(conf, i) && |conf| == i
    {
      var appType := if i % 2 == 0 then PUB else SUB;
      var key := "app" + Print(i);
      assert key == KeyOf(i);
      var value := Entry(appType, "[\"unixpipe/app" + Print(i) + ".pipe" + "\"]");
      assert value == EntryOf(i) by { AddressText(i); }
      assert key !in conf by {
        if key in conf {
          var j: nat :| j < i && key == KeyOf(j);
          KeysDiffer(i, j);
        }
      }
      ghost var before := conf;
      conf := conf[key := value];
      forall j: nat | j < i + 1 ensures KeyOf(j) in conf && conf[KeyOf(j)] == EntryOf(j) {
        if j < i && KeyOf(j) == key { KeysDiffer(i, j); }
      }
      assert conf.Keys == before.Keys + {key};
      i := i + 1;
    }
    forall key | key in conf ensures conf[key].address == "[\"unixpipe/" + key + ".pipe\"]" {
      var j: nat :| j < i && key == KeyOf(j);
      EntryIsOfItsKey(j);
    }
  }

  lemma {:induction false} AddressText(i: nat)
    ensures "[\"unixpipe/app" + Print(i) + ".pipe" + "\"]" == "[" + Pipe(i) + "]"
  {
    hide Print;
  }

  // pop_back and erase(begin()), which the source applies to every address that is not
  // empty; one of a single character would be used up by the first.
  function Unwrap(address: string): string
    requires |address| >= 2
  {
    address[1..|address| - 1]
  }

  ghost predicate Wrapped(conf: map<string, Entry>, filter: string) {
    forall key :: key in conf && conf[key].kind == filter ==> |conf[key].address| != 1
  }

  predicate Chosen(conf: map<string, Entry>, key: string, filter: string) {
    key in conf && conf[key].kind == filter && conf[key].address != ""
  }

  // The unwrapped addresses of the kind, in the order in which the map is gone through.
  function Addresses(conf: map<string, Entry>, order: seq<string>, filter: string): seq<string>
    requires Wrapped(conf, filter)
  {
    if order == [] then []
    else
      var key := order[|order| - 1];
      Addresses(conf, order[..|order| - 1], filter)
      + if Chosen(conf, key, filter) then [Unwrap(conf[key].address)] else []
  }

  function Listed(addresses: seq<string>): string {
    if addresses == [] then "" else Listed(addresses[..|addresses| - 1]) + (addresses[|addresses| - 1] + ",")
  }

  lemma {:induction false} ListedSnoc(addresses: seq<string>, last: string)
    ensures "[" + Listed(addresses + [last]) == ("[" + Listed(addresses)) + (last + ",")
  {
    assert (addresses + [last])[..|addresses|] == addresses;
  }

  lemma {:induction false} NothingListed(conf: map<string, Entry>, filter: string)
    requires Wrapped(conf, filter)
    ensures Listed(Addresses(conf, [], filter)) == ""
  {
  }

  lemma {:induction false} AddressesStep(conf: map<string, Entry>, order: seq<string>, k: nat, filter: string)
    requires Wrapped(conf, filter) && k < |order|
    ensures Addresses(conf, order[..k + 1], filter) ==
            if Chosen(conf, order[k], filter)
            then Addresses(conf, order[..k], filter) + [Unwrap(conf[order[k]].address)]
            else Addresses(conf, order[..k], filter)
  {
    assert order[..k + 1][..k] == order[..k];
  }

  // It takes off the first and the last character.
  lemma {:induction false} UnwrapTakesEnds(address: string)
    requires |address| >= 2
    ensures address == [address[0]] + Unwrap(address) + [address[|address| - 1]]
  {
  }

  lemma {:induction false} UnwrapText(address: string)
    requires |address| >= 2
    ensures Unwrap(address) == address[..|address| - 1][1..]
  {
  }

  // An order in which an unordered map may be gone through.
  ghost predicate Iteration(conf: map<string, Entry>, order: seq<string>) {
    && (forall k :: 0 <= k < |order| ==> order[k] in conf)
    && (forall key :: key in conf ==> key in order)
    && (forall i, j :: 0 <= i < j < |order| ==> order[i] != order[j])
  }

  function ButLast(s: string): string
    requires s != ""
  {
    s[..|s| - 1]
  }

  method GetAllTypeKeys(conf: map<string, Entry>, order: seq<string>, filter: string) returns (str: string)
    requires Iteration(conf, order) && Wrapped(conf, filter)
    ensures var found := Addresses(conf, order, filter);
      str == if found == [] then "]" else "[" + Join(found, ",") + "]"
  {
    hide Unwrap, Addresses, Listed;
    var s := "[";
    assert s == "[" + Listed(Addresses(conf, order[..0], filter)) by { NothingListed(conf, filter); }
    for k := 0 to |order|
      invariant s == "[" + Listed(Addresses(conf, order[..k], filter))
    {
      AddressesStep(conf, order, k, filter);
      ghost var before := Addresses(conf, order[..k], filter);
      if conf[order[k]].kind == filter {
        var addr := conf[order[k]].address;
        if addr != "" {
          UnwrapText(addr);
          addr := addr[..|addr| - 1];
          addr := addr[1..];
          ListedSnoc(before, addr);
          s := s + (addr + ",");
        }
      }
    }
    assert order[..|order|] == order;
    str := s;
    if str != "" {
      str := str[..|str| - 1];
      str := str + "]";
    }
    KeyText(Addresses(conf, order, filter));
  }

  // ---- What the keys say ------------------------------------------------------------------

  lemma {:induction false} ListedIsJoined(addresses: seq<string>)
    requires addresses != []
    ensures Listed(addresses) == Join(addresses, ",") + ","
  {
    var n := |addresses| - 1;
    if n == 0 {
      assert Listed(addresses[..0]) == "";
    } else {
      ListedIsJoined(addresses[..n]);
      JoinSnoc(addresses[..n], addresses[n]);
      assert addresses[..n] + [addresses[n]] == addresses;
    }
  }

  lemma {:induction false} JoinSnoc(pieces: seq<string>, last: string)
    requires pieces != []
    ensures Join(pieces + [last], ",") == Join(pieces, ",") + "," + last
  {
    if |pieces| == 1 {
      assert (pieces + [last])[1..] == [last];
    } else {
      JoinSnoc(pieces[1..], last);
      assert (pieces + [last])[1..] == pieces[1..] + [last];
    }
  }

  // The key is a bracketed list of the chosen addresses, unless there are none: then
  // taking off the last character takes the bracket.
  lemma {:induction false} KeyText(addresses: seq<string>)
    ensures ButLast("[" + Listed(addresses)) + "]" ==
            if addresses == [] then "]" else "[" + Join(addresses, ",") + "]"
  {
    if addresses != [] {
      ListedIsJoined(addresses);
      assert ButLast("[" + (Join(addresses, ",") + ",")) == "[" + Join(addresses, ",");
    }
  }

  lemma {:induction false} PipeIsClean(i: nat)
    ensures Clean(Pipe(i), ',') && Unwrap(EntryOf(i).address) == Pipe(i)
  {
    hide Print;
    DigitsHaveNoComma(Print(i));
  }

  lemma {:induction false} DigitsHaveNoComma(s: string)
    requires AllDigits(s)
    ensures ',' !in s
  {
    assert forall k :: 0 <= k < |s| ==> IsDigit(s[k]);
  }

  lemma {:induction false} ServersAreWrapped(conf: map<string, Entry>, n: nat, filter: string)
    requires ServerList(conf, n)
    ensures Wrapped(conf, filter)
  {
    hide Print;
    forall key | key in conf ensures |conf[key].address| != 1 {
      var i: nat :| i < n && key == KeyOf(i);
    }
  }

  // The process numbers behind the chosen addresses, in the same order.
  lemma {:induction false} ChosenProcesses(conf: map<string, Entry>, n: nat, order: seq<string>, filter: string)
    returns (numbers: seq<nat>)
    requires ServerList(conf, n) && Wrapped(conf, filter)
    requires forall k :: 0 <= k < |order| ==> order[k] in conf
    requires forall i, j :: 0 <= i < j < |order| ==> order[i] != order[j]
    ensures |numbers| == |Addresses(conf, order, filter)|
    ensures forall k :: 0 <= k < |numbers| ==>
              && numbers[k] < n && KindOf(numbers[k]) == filter && KeyOf(numbers[k]) in order
              && Addresses(conf, order, filter)[k] == Pipe(numbers[k])
    ensures forall i: nat :: i < n && KindOf(i) == filter && KeyOf(i) in order ==> i in numbers
    ensures forall i, j :: 0 <= i < j < |numbers| ==> numbers[i] != numbers[j]
  {
    hide Pipe, KindOf, Unwrap, KeyOf, PUB, SUB;
    if order == [] {
      numbers := [];
    } else {
      var last := |order| - 1;
      numbers := ChosenProcesses(conf, n, order[..last], filter);
      assert order[last] in conf;
      var p: nat :| p < n && order[last] == KeyOf(p);
      PipeIsClean(p);
      assert KeyOf(p) !in order[..last];
      assert conf[KeyOf(p)].address != "" by { assert EntryOf(p).address != ""; }
      if KindOf(p) == filter {
        numbers := numbers + [p];
      }
      forall i: nat | i < n && KindOf(i) == filter && KeyOf(i) in order ensures i in numbers {
        if KeyOf(i) == KeyOf(p) { KeysDiffer(i, p); } else { assert KeyOf(i) in order[..last]; }
      }
    }
  }

  // The key of a kind, for every number of processes and every iteration order: split
  // at the commas inside the brackets it gives the pipe of every process of that kind,
  // each once.
  lemma {:induction false} KeyListsTheKind(conf: map<string, Entry>, n: nat, order: seq<string>, filter: string)
    requires ServerList(conf, n) && Iteration(conf, order)
    ensures Wrapped(conf, filter)
    ensures var found := Addresses(conf, order, filter);
      && Pieces(Join(found, ","), ",") == found
      && (forall p :: p in found <==> exists i: nat :: i < n && KindOf(i) == filter && p == Pipe(i))
      && (forall i, j :: 0 <= i < j < |found| ==> found[i] != found[j])
  {
    hide Pipe, KindOf, Unwrap, Addresses, Pieces;
    ServersAreWrapped(conf, n, filter);
    var numbers := ChosenProcesses(conf, n, order, filter);
    var found := Addresses(conf, order, filter);
    forall p | p in found ensures Clean(p, ',') && exists i: nat :: i < n && KindOf(i) == filter && p == Pipe(i) {
      var k :| 0 <= k < |found| && found[k] == p;
      PipeIsClean(numbers[k]);
    }
    forall i: nat | i < n && KindOf(i) == filter ensures Pipe(i) in found {
      assert KeyOf(i) in order;
      var k :| 0 <= k < |numbers| && numbers[k] == i;
      assert found[k] == Pipe(i);
    }
    forall i, j | 0 <= i < j < |found| ensures found[i] != found[j] {
      if found[i] == found[j] { PipesDiffer(numbers[i], numbers[j]); }
    }
    SplitUndoesJoin(found, ',');
  }

  // Publishers' and subscribers' keys divide the processes between them.
  lemma {:induction false} KeysPartition(conf: map<string, Entry>, n: nat, order: seq<string>, i: nat)
    requires ServerList(conf, n) && Iteration(conf, order) && i < n
    ensures Wrapped(conf, PUB) && Wrapped(conf, SUB)
    ensures Pipe(i) in Addresses(conf, order, PUB) <==> Pipe(i) !in Addresses(conf, order, SUB)
    ensures Pipe(i) in Addresses(conf, order, PUB) <==> i % 2 == 0
  {
    hide Pipe, Addresses, Join, Pieces;
    KeyListsTheKind(conf, n, order, PUB);
    KeyListsTheKind(conf, n, order, SUB);
    if j: nat :| j < n && KindOf(j) == PUB && Pipe(i) == Pipe(j) { PipesDiffer(i, j); }
    if j: nat :| j < n && KindOf(j) == SUB && Pipe(i) == Pipe(j) { PipesDiffer(i, j); }
  }
}
