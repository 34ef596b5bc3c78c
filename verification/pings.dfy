/** The interest lists behind the `cl add` and `cl list` commands: an in-memory map from
    user id to a record `{ pokemonList, afk }`. */
module Pings {
  import opened Common
  import opened JsText
  import opened Chunks

  datatype Record = Record(pokemonList: seq<string>, afk: bool)

  /** The `pings` object. */
  type Store = map<string, Record>

  /** The record a first `cl add` creates. */
  const NewRecord := Record([], false)

  /** The argument text of a command: the message split at every space, the first three
      words (the mention, `cl` and `add`) dropped, and the rest joined again with spaces. */
  function CommandArgs(content: string): string
  {
    var words := Split(content, ' ');
    Join(if |words| <= 3 then [] else words[3..], ' ')
  }

  /** The words of a three-word prefix followed by a space and more text. */
  lemma SplitAfterThreeWords(a: string, b: string, c: string, rest: string)
    requires ' ' !in a && ' ' !in b && ' ' !in c
    ensures Split(a + " " + b + " " + c + " " + rest, ' ') == [a, b, c] + Split(rest, ' ')
  {
    var y2 := c + [' '] + rest;
    var y1 := b + [' '] + y2;
    assert a + " " + b + " " + c + " " + rest == a + [' '] + y1;
    SplitAfterPiece(a, y1, ' ');
    SplitAfterPiece(b, y2, ' ');
    SplitAfterPiece(c, rest, ' ');
  }

  /** After a three-word command prefix and one space, the argument text is everything
      that follows, spaces included. */
  lemma CommandArgsAfterPrefix(a: string, b: string, c: string, rest: string)
    requires ' ' !in a && ' ' !in b && ' ' !in c
    ensures CommandArgs(a + " " + b + " " + c + " " + rest) == rest
  {
    SplitAfterThreeWords(a, b, c, rest);
    var words := Split(a + " " + b + " " + c + " " + rest, ' ');
    assert words[3..] == Split(rest, ' ');
    JoinSplit(rest, ' ');
  }

  /** With only the three words there is no argument text. */
  lemma CommandArgsPrefixOnly(a: string, b: string, c: string)
    requires ' ' !in a && ' ' !in b && ' ' !in c
    ensures CommandArgs(a + " " + b + " " + c) == ""
  {
    var y1 := b + [' '] + c;
    assert a + " " + b + " " + c == a + [' '] + y1;
    SplitAfterPiece(a, y1, ' ');
    SplitAfterPiece(b, c, ' ');
    SplitAfterPiece(c, "", ' ');
    assert Split(a + " " + b + " " + c, ' ') == [a, b, c];
  }

  /** A name the list can hold: non-empty, trimmed, free of commas. */
  predicate IsName(s: string)
  {
    s != "" && IsTrimmed(s) && ',' !in s
  }

  /** Each comma-separated piece with its surrounding whitespace removed; pieces left
      empty are dropped, the others kept in order. */
  function CleanNames(pieces: seq<string>): (names: seq<string>)
    ensures |names| <= |pieces|
    ensures forall i | 0 <= i < |names| :: names[i] != ""
  {
    if |pieces| == 0 then []
    else
      var t := Trim(pieces[0]);
      var rest := CleanNames(pieces[1..]);
      if t == "" then rest else [t] + rest
  }

  /** Each cleaned name is the trimmed form of some piece. */
  lemma {:induction false} CleanNamesFrom(pieces: seq<string>, i: nat) returns (k: nat)
    requires i < |CleanNames(pieces)|
    ensures k < |pieces| && CleanNames(pieces)[i] == Trim(pieces[k])
  {
    var t := Trim(pieces[0]);
    var rest := CleanNames(pieces[1..]);
    if t == "" {
      assert CleanNames(pieces) == rest;
      k := CleanNamesFrom(pieces[1..], i);
      k := k + 1;
    } else if i == 0 {
      assert CleanNames(pieces) == [t] + rest;
      k := 0;
    } else {
      assert CleanNames(pieces) == [t] + rest;
      assert CleanNames(pieces)[i] == rest[i - 1];
      k := CleanNamesFrom(pieces[1..], i - 1);
      k := k + 1;
    }
  }

  /** Every cleaned name is trimmed, and it is a name whenever no piece held a comma. */
  lemma CleanNamesTrimmed(pieces: seq<string>)
    ensures forall i | 0 <= i < |CleanNames(pieces)| :: IsTrimmed(CleanNames(pieces)[i])
    ensures (forall k | 0 <= k < |pieces| :: ',' !in pieces[k]) ==>
              forall i | 0 <= i < |CleanNames(pieces)| :: IsName(CleanNames(pieces)[i])
  {
    forall i | 0 <= i < |CleanNames(pieces)|
      ensures IsTrimmed(CleanNames(pieces)[i])
    {
      var k := CleanNamesFrom(pieces, i);
    }
    if forall k | 0 <= k < |pieces| :: ',' !in pieces[k] {
      forall i | 0 <= i < |CleanNames(pieces)|
        ensures ',' !in CleanNames(pieces)[i]
      {
        var k := CleanNamesFrom(pieces, i);
        TrimKeepsAbsent(pieces[k], ',');
      }
    }
  }

  /** Cleaning one piece keeps its trimmed form exactly when that is non-empty. */
  lemma CleanNamesSingle(piece: string)
    ensures CleanNames([piece]) == if Trim(piece) == "" then [] else [Trim(piece)]
  {
    assert [piece][1..] == [];
  }

  /** Cleaning keeps piece order: cleaning a concatenation concatenates the cleaned parts. */
  lemma {:induction false} CleanNamesAppend(a: seq<string>, b: seq<string>)
    ensures CleanNames(a + b) == CleanNames(a) + CleanNames(b)
    decreases |a|
  {
    if |a| == 0 {
      assert a + b == b;
    } else {
      assert (a + b)[0] == a[0];
      assert (a + b)[1..] == a[1..] + b;
      CleanNamesAppend(a[1..], b);
    }
  }

  /** Every piece whose trimmed form is non-empty is kept, trimmed. */
  lemma {:induction false} CleanNamesKeeps(pieces: seq<string>)
    ensures forall k | 0 <= k < |pieces| && Trim(pieces[k]) != "" :: Trim(pieces[k]) in CleanNames(pieces)
  {
    forall k | 0 <= k < |pieces| && Trim(pieces[k]) != ""
      ensures Trim(pieces[k]) in CleanNames(pieces)
    {
      assert pieces == pieces[..k] + ([pieces[k]] + pieces[k + 1..]);
      CleanNamesAppend(pieces[..k], [pieces[k]] + pieces[k + 1..]);
      CleanNamesAppend([pieces[k]], pieces[k + 1..]);
      CleanNamesSingle(pieces[k]);
    }
  }

  /** Names that are already clean pass through unchanged. */
  lemma {:induction false} CleanNamesOfNames(names: seq<string>)
    requires forall i | 0 <= i < |names| :: IsName(names[i])
    ensures CleanNames(names) == names
  {
    if |names| > 0 {
      TrimOfTrimmed(names[0]);
      CleanNamesOfNames(names[1..]);
      assert [names[0]] + names[1..] == names;
    }
  }

  /** The names of a `cl add` argument text: the comma-separated pieces, trimmed, empty
      ones dropped, in order. */
  function ParseNames(text: string): (names: seq<string>)
    ensures forall i | 0 <= i < |names| :: IsName(names[i])
  {
    var pieces := Split(text, ',');
    CleanNamesTrimmed(pieces);
    CleanNames(pieces)
  }

  /** Parsing a comma-joined sequence of comma-free pieces trims them and drops the empty
      ones; in particular, comma-joined names parse back to themselves. */
  lemma ParseNamesOfJoin(pieces: seq<string>)
    requires forall k | 0 <= k < |pieces| :: ',' !in pieces[k]
    ensures ParseNames(Join(pieces, ',')) == CleanNames(pieces)
    ensures (forall k | 0 <= k < |pieces| :: IsName(pieces[k])) ==> ParseNames(Join(pieces, ',')) == pieces
  {
    if |pieces| > 0 {
      SplitJoin(pieces, ',');
    } else {
      assert Split("", ',') == [""];
    }
    if forall k | 0 <= k < |pieces| :: IsName(pieces[k]) {
      CleanNamesOfNames(pieces);
    }
  }

  /** The outcome of the insertion loop: the new list, then the `addedPokemons` and
      `alreadyInList` arrays. */
  datatype AddResult = AddResult(list: seq<string>, added: seq<string>, already: seq<string>)

  /** The loop of `cl add`: a name missing from the list (as grown so far) is pushed to it
      and reported added; any other name is reported as already in the list. */
  function AddAll(list: seq<string>, names: seq<string>): (r: AddResult)
    ensures r.list == list + r.added
    ensures |r.added| + |r.already| == |names|
    decreases |names|
  {
    if |names| == 0 then AddResult(list, [], [])
    else if names[0] in list then
      var r := AddAll(list, names[1..]);
      AddResult(r.list, r.added, [names[0]] + r.already)
    else
      var r := AddAll(list + [names[0]], names[1..]);
      AddResult(r.list, [names[0]] + r.added, r.already)
  }

  /** `names[i]` is new: absent from the old list and from the names before it. */
  function FreshMask(list: seq<string>, names: seq<string>): (mask: seq<bool>)
    ensures |mask| == |names|
  {
    seq(|names|, i requires 0 <= i < |names| => names[i] !in list && names[i] !in names[..i])
  }

  function Negate(mask: seq<bool>): (r: seq<bool>)
    ensures |r| == |mask|
  {
    seq(|mask|, i requires 0 <= i < |mask| => !mask[i])
  }

  /** The elements of `xs` whose flag is set, in order. */
  function Select<T>(xs: seq<T>, keep: seq<bool>): seq<T>
    requires |keep| == |xs|
  {
    if |xs| == 0 then []
    else (if keep[0] then [xs[0]] else []) + Select(xs[1..], keep[1..])
  }

  /** Adding the first name shifts the mask of the others onto the grown list. */
  lemma FreshMaskTail(list: seq<string>, names: seq<string>)
    requires |names| > 0
    ensures var grown := if names[0] in list then list else list + [names[0]];
            FreshMask(grown, names[1..]) == FreshMask(list, names)[1..]
  {
    var grown := if names[0] in list then list else list + [names[0]];
    var tail := names[1..];
    forall i | 0 <= i < |tail|
      ensures FreshMask(grown, tail)[i] == FreshMask(list, names)[i + 1]
    {
      assert names[..i + 1] == [names[0]] + tail[..i];
    }
  }

  /** The insertion loop partitions the parsed names, keeping their order: a name is added
      exactly when it is in neither the old list nor earlier in the batch, so a name
      repeated within one batch is reported as already present on its second occurrence. */
  lemma {:induction false} AddAllPartition(list: seq<string>, names: seq<string>)
    ensures AddAll(list, names).added == Select(names, FreshMask(list, names))
    ensures AddAll(list, names).already == Select(names, Negate(FreshMask(list, names)))
    decreases |names|
  {
    if |names| > 0 {
      var grown := if names[0] in list then list else list + [names[0]];
      AddAllPartition(grown, names[1..]);
      FreshMaskTail(list, names);
      var mask := FreshMask(list, names);
      assert Negate(mask)[1..] == Negate(mask[1..]);
      assert mask[0] == (names[0] !in list);
    }
  }

  /** The two reports together hold the parsed names exactly: each name of the batch is
      reported once, as added or as already present, as often as the batch holds it. */
  lemma {:induction false} AddAllReportsEveryName(list: seq<string>, names: seq<string>)
    ensures var r := AddAll(list, names);
            multiset(r.added) + multiset(r.already) == multiset(names)
    decreases |names|
  {
    if |names| > 0 {
      var grown := if names[0] in list then list else list + [names[0]];
      AddAllReportsEveryName(grown, names[1..]);
      assert names == [names[0]] + names[1..];
    }
  }

  /** Every parsed name ends up in the list, and a list without duplicates keeps none. */
  lemma {:induction false} AddAllContents(list: seq<string>, names: seq<string>)
    ensures forall i | 0 <= i < |names| :: names[i] in AddAll(list, names).list
    ensures forall i | 0 <= i < |list| :: list[i] in AddAll(list, names).list
    ensures NoDup(list) ==> NoDup(AddAll(list, names).list)
    decreases |names|
  {
    if |names| > 0 {
      var grown := if names[0] in list then list else list + [names[0]];
      AddAllContents(grown, names[1..]);
      var r := AddAll(list, names);
      assert names[0] in grown;
      assert forall i | 0 <= i < |list| :: list[i] in grown;
      forall i | 1 <= i < |names|
        ensures names[i] in r.list
      {
        assert names[1..][i - 1] == names[i];
      }
    }
  }

  /** When every name is already in the list nothing is added and every name is reported. */
  lemma {:induction false} AddAllPresent(list: seq<string>, names: seq<string>)
    requires forall i | 0 <= i < |names| :: names[i] in list
    ensures AddAll(list, names) == AddResult(list, [], names)
    decreases |names|
  {
    if |names| > 0 {
      AddAllPresent(list, names[1..]);
      assert [names[0]] + names[1..] == names;
    }
  }

  /** The reply of `cl add`. */
  datatype AddReply = NoNamesGiven | Report(added: seq<string>, alreadyInList: seq<string>)

  /** The user's current list, empty when the user has no record. */
  function ListOf(store: Store, user: string): seq<string>
  {
    if user in store then store[user].pokemonList else []
  }

  /** The `cl add` command from `user` after parsing: with no names, reply with an error
      and change nothing; otherwise create the record if missing, run the insertion loop,
      and store the grown list. Every other user's record is left as it was. */
  function AddNames(store: Store, user: string, names: seq<string>): (r: (Store, AddReply))
    ensures r.1.NoNamesGiven? <==> names == []
    ensures r.1.NoNamesGiven? ==> r.0 == store
    ensures r.1.Report? ==> user in r.0 && r.0[user].pokemonList == ListOf(store, user) + r.1.added
    ensures r.1.Report? ==> r.0[user].afk == (user in store && store[user].afk)
    ensures r.1.Report? ==> |r.1.added| + |r.1.alreadyInList| == |names|
    ensures forall u | u != user :: (u in r.0 <==> u in store) && (u in store ==> r.0[u] == store[u])
  {
    if |names| == 0 then (store, NoNamesGiven)
    else
      var rec := if user in store then store[user] else NewRecord;
      var res := AddAll(rec.pokemonList, names);
      (store[user := rec.(pokemonList := res.list)], Report(res.added, res.already))
  }

  /** The whole `cl add` command: the names come from the text after the command words. */
  function AddInterest(store: Store, user: string, content: string): (Store, AddReply)
  {
    AddNames(store, user, ParseNames(CommandArgs(content)))
  }

  /** The reply partitions the parsed names as the insertion loop does, every name ends up
      in the user's list, and a duplicate-free list stays duplicate-free. */
  lemma AddNamesSpec(store: Store, user: string, names: seq<string>)
    ensures var (store', reply) := AddNames(store, user, names);
            reply.Report? ==>
              && reply.added == Select(names, FreshMask(ListOf(store, user), names))
              && reply.alreadyInList == Select(names, Negate(FreshMask(ListOf(store, user), names)))
              && (forall i | 0 <= i < |names| :: names[i] in store'[user].pokemonList)
              && (NoDup(ListOf(store, user)) ==> NoDup(store'[user].pokemonList))
  {
    AddAllPartition(ListOf(store, user), names);
    AddAllContents(ListOf(store, user), names);
  }

  /** Sending the same names twice: the second batch changes nothing and reports every
      name as already in the list. */
  lemma AddNamesTwice(store: Store, user: string, names: seq<string>)
    requires names != []
    ensures var store1 := AddNames(store, user, names).0;
            AddNames(store1, user, names) == (store1, Report([], names))
  {
    var store1 := AddNames(store, user, names).0;
    var res := AddAll(ListOf(store, user), names);
    var list1 := store1[user].pokemonList;
    assert list1 == res.list;
    AddAllContents(ListOf(store, user), names);
    assert forall i | 0 <= i < |names| :: names[i] in list1;
    AddAllPresent(list1, names);
    assert ListOf(store1, user) == list1;
    assert store1[user := store1[user].(pokemonList := list1)] == store1;
  }

  /** A `cl add` message of three command words, a space and a comma-separated text acts
      on the names parsed from that text alone. */
  lemma AddInterestOfCommand(store: Store, user: string, a: string, b: string, c: string, text: string)
    requires ' ' !in a && ' ' !in b && ' ' !in c
    ensures AddInterest(store, user, a + " " + b + " " + c + " " + text)
            == AddNames(store, user, ParseNames(text))
  {
    CommandArgsAfterPrefix(a, b, c, text);
  }

  /** A `cl add` whose text names nothing (`cl add` alone, or only commas and spaces) is
      refused and leaves the store as it was. */
  lemma AddInterestNothing(store: Store, user: string, content: string)
    requires ParseNames(CommandArgs(content)) == []
    ensures AddInterest(store, user, content) == (store, NoNamesGiven)
  {
  }

  /** The batch `Pika, Pika, Bulba` on a fresh list adds `Pika` and `Bulba` and reports the
      second `Pika` as already present. */
  lemma AddAllRepeatedInBatch()
    ensures AddAll([], ["Pika", "Pika", "Bulba"]) == AddResult(["Pika", "Bulba"], ["Pika", "Bulba"], ["Pika"])
  {
    var names := ["Pika", "Pika", "Bulba"];
    assert names[1..] == ["Pika", "Bulba"];
    assert names[1..][1..] == ["Bulba"];
    assert "Bulba" != "Pika";
  }

  /** `cl list` pages hold 50 names each. */
  const ChunkSize: nat := 50

  /** One numbered line `<number>. <name>`. */
  datatype Line = Line(number: nat, name: string)

  /** The reply of `cl list`: the "no Pokémon" message, or the numbered pages. */
  datatype Listing = NoList | Pages(pages: seq<seq<Line>>)

  /** Chunk `i` numbered as the handler numbers it: the element at position `j` of the
      chunk gets number `j + 1 + i * 50`, so the first chunk counts from 1. */
  function NumberChunk(chunk: seq<string>, i: nat): seq<Line>
  {
    seq(|chunk|, j requires 0 <= j < |chunk| => Line(j + 1 + i * ChunkSize, chunk[j]))
  }

  /** The `cl list` command from `user`. */
  function ListInterest(store: Store, user: string): (r: Listing)
    ensures r.Pages? <==> ListOf(store, user) != []
    ensures r.Pages? ==> |r.pages| > 0
    ensures r.Pages? ==> forall i | 0 <= i < |r.pages| :: 0 < |r.pages[i]| <= ChunkSize
  {
    if user in store && |store[user].pokemonList| > 0 then
      var chunks := SplitIntoChunks(store[user].pokemonList, ChunkSize);
      Pages(seq(|chunks|, i requires 0 <= i < |chunks| => NumberChunk(chunks[i], i)))
    else NoList
  }

  /** Line `j` of page `i` shows number `i * 50 + j + 1` next to the list element at that
      global position. */
  lemma ListInterestLine(store: Store, user: string, i: nat, j: nat)
    requires ListInterest(store, user).Pages?
    requires i < |ListInterest(store, user).pages| && j < |ListInterest(store, user).pages[i]|
    ensures i * ChunkSize + j < |ListOf(store, user)|
    ensures ListInterest(store, user).pages[i][j]
            == Line(i * ChunkSize + j + 1, ListOf(store, user)[i * ChunkSize + j])
  {
    var list := store[user].pokemonList;
    var chunks := SplitIntoChunks(list, ChunkSize);
    var pages := ListInterest(store, user).pages;
    assert pages[i] == NumberChunk(chunks[i], i);
    ChunkElement(list, ChunkSize, i, j);
  }

  /** Every element of the list is shown, at line `k % 50` of page `k / 50`, numbered by its
      position + 1. */
  lemma ListInterestCovers(store: Store, user: string, k: nat)
    requires ListInterest(store, user).Pages?
    requires k < |ListOf(store, user)|
    ensures var pages := ListInterest(store, user).pages;
            && k / ChunkSize < |pages| && k % ChunkSize < |pages[k / ChunkSize]|
            && pages[k / ChunkSize][k % ChunkSize] == Line(k + 1, ListOf(store, user)[k])
  {
    var list := ListOf(store, user);
    var chunks := SplitIntoChunks(list, ChunkSize);
    ChunkCount(list, ChunkSize);
    var i := k / ChunkSize;
    var j := k % ChunkSize;
    assert k == i * ChunkSize + j;
    assert i < |chunks|;
    assert j < |chunks[i]|;
    ChunkElement(list, ChunkSize, i, j);
  }
}
