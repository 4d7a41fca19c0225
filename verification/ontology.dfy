/** The QuickGO client `EBI`: descendants of one GO id, names of a list of
    ids, and catalogue-restricted ancestor chains of a list of names.

    The service is a parameter: given the comma-joined ids of one request and
    the endpoint, it answers the `results` records, or `None` when the
    request fails or the answer is not JSON (no retry at this layer). */
module Ontology {
  import opened Wrappers
  import opened Strings
  import opened Seqs
  import opened Batching

  /** One record of a QuickGO `results` list. */
  datatype GoRecord = GoRecord(id: string, name: string, descendants: seq<string>, ancestors: seq<string>)

  type Service = (string, string) -> Option<seq<GoRecord>>

  // ---- get_descendants ----

  /** `get_descendants(go_id)`: the descendants of the first record answered,
      without repetitions and in no particular order, then the id itself. */
  method Descendants(goId: string, service: Service) returns (r: Result<seq<string>>)
    ensures r.Success? <==> service(goId, "descendants").Some? && |service(goId, "descendants").value| > 0
    ensures service(goId, "descendants").Some? && |service(goId, "descendants").value| == 0 ==> r == Failure(IndexError)
    ensures r.Success? ==>
      var ds := service(goId, "descendants").value[0].descendants;
      && |r.value| >= 1 && r.value[|r.value| - 1] == goId
      && (forall x :: x in r.value <==> x in ds || x == goId)
      && Distinct(r.value[..|r.value| - 1])
  {
    var answer := service(goId, "descendants");
    if answer.None? {
      return Failure(RequestFailed);
    }
    if |answer.value| == 0 {
      return Failure(IndexError);
    }
    var ds := answer.value[0].descendants;
    var left := set x | x in ds;
    var out: seq<string> := [];
    while left != {}
      invariant forall x :: x in ds <==> x in out || x in left
      invariant forall x :: x in out ==> x !in left
      invariant Distinct(out)
      decreases left
    {
      var x :| x in left;
      out := out + [x];
      left := left - {x};
    }
    r := Success(out + [goId]);
    assert r.value[..|r.value| - 1] == out;
  }

  // ---- batched requests ----

  /** One request per batch, in order, with the batch's ids joined by commas;
      the answers concatenated, or `None` as soon as one request fails. */
  function Fetch(batches: seq<seq<string>>, service: Service, endpoint: string): Option<seq<GoRecord>>
  {
    if |batches| == 0 then Some([])
    else
      match service(Join(",", batches[0]), endpoint)
      case None => None
      case Some(recs) =>
        match Fetch(batches[1..], service, endpoint)
        case None => None
        case Some(rest) => Some(recs + rest)
  }

  /** The records each batch's request answers, in batch order; defined
      only when every request answers. */
  function Answered(batches: seq<seq<string>>, service: Service, endpoint: string): seq<seq<GoRecord>>
    requires forall i :: 0 <= i < |batches| ==> service(Join(",", batches[i]), endpoint).Some?
  {
    seq(|batches|, i requires 0 <= i < |batches| => service(Join(",", batches[i]), endpoint).value)
  }

  /** The batched requests succeed exactly when every one of them answers,
      and then give the answers concatenated in batch order. */
  lemma {:induction false} FetchAnswers(batches: seq<seq<string>>, service: Service, endpoint: string)
    ensures Fetch(batches, service, endpoint).Some?
        <==> forall i :: 0 <= i < |batches| ==> service(Join(",", batches[i]), endpoint).Some?
    ensures Fetch(batches, service, endpoint).Some? ==>
      Fetch(batches, service, endpoint).value == Flatten(Answered(batches, service, endpoint))
    decreases |batches|
  {
    if |batches| > 0 {
      FetchAnswers(batches[1..], service, endpoint);
      if forall i :: 0 <= i < |batches| ==> service(Join(",", batches[i]), endpoint).Some? {
        forall i | 0 <= i < |batches[1..]|
          ensures service(Join(",", batches[1..][i]), endpoint).Some?
        {
          assert batches[1..][i] == batches[i + 1];
        }
        var all := Answered(batches, service, endpoint);
        assert all[1..] == Answered(batches[1..], service, endpoint);
        assert Flatten(all) == all[0] + Flatten(all[1..]);
      }
    }
  }

  /** The answers succeed when every batch's request succeeds; they are then
      every batch's answer, concatenated in batch order, so a record is
      returned exactly when some batch's answer holds it. */
  lemma FetchSpec(batches: seq<seq<string>>, service: Service, endpoint: string)
    ensures Fetch(batches, service, endpoint).Some?
        <==> forall i :: 0 <= i < |batches| ==> service(Join(",", batches[i]), endpoint).Some?
    ensures Fetch(batches, service, endpoint).Some? ==>
      Fetch(batches, service, endpoint).value == Flatten(Answered(batches, service, endpoint))
    ensures Fetch(batches, service, endpoint).Some? ==>
      forall rec :: rec in Fetch(batches, service, endpoint).value <==>
        exists i :: 0 <= i < |batches| && rec in service(Join(",", batches[i]), endpoint).value
  {
    FetchAnswers(batches, service, endpoint);
    if Fetch(batches, service, endpoint).Some? {
      var all := Answered(batches, service, endpoint);
      forall rec
        ensures rec in Flatten(all) <==>
          exists i :: 0 <= i < |batches| && rec in service(Join(",", batches[i]), endpoint).value
      {
        FlattenMember(all, rec);
        if exists i :: 0 <= i < |batches| && rec in service(Join(",", batches[i]), endpoint).value {
          var i :| 0 <= i < |batches| && rec in service(Join(",", batches[i]), endpoint).value;
          assert rec in all[i];
        }
      }
    }
  }

  // ---- get_go_names ----

  function Names(recs: seq<GoRecord>): seq<string>
  {
    seq(|recs|, i requires 0 <= i < |recs| => recs[i].name)
  }

  function Ids(recs: seq<GoRecord>): seq<string>
  {
    seq(|recs|, i requires 0 <= i < |recs| => recs[i].id)
  }

  /** `get_go_names(identifiers)`: the name -> id map of every record
      answered for the batches of the ids; a later record with the same name
      overrides an earlier one. */
  function GoNames(ids: seq<string>, service: Service): Result<map<string, string>>
  {
    match Fetch(Batches(ids), service, "")
    case None => Failure(RequestFailed)
    case Some(recs) => Success(Zip(Names(recs), Ids(recs)))
  }

  /** The names map has exactly the names of the records answered as keys,
      each mapped to the id of the last record of that name; it fails exactly
      when one of the ceil(n/50) batch requests fails. */
  lemma GoNamesSpec(ids: seq<string>, service: Service)
    ensures GoNames(ids, service).Success?
        <==> forall i :: 0 <= i < |Batches(ids)| ==> service(Join(",", Batches(ids)[i]), "").Some?
    ensures GoNames(ids, service).Success? ==>
      var recs := Fetch(Batches(ids), service, "").value;
      var m := GoNames(ids, service).value;
      && (forall k :: k in m <==> exists i :: 0 <= i < |recs| && recs[i].name == k)
      && (forall i :: 0 <= i < |recs| && LastOccurrence(Names(recs), i) ==> m[recs[i].name] == recs[i].id)
  {
    FetchSpec(Batches(ids), service, "");
    assert GoNames(ids, service).Success? <==> Fetch(Batches(ids), service, "").Some?;
    if GoNames(ids, service).Success? {
      var recs := Fetch(Batches(ids), service, "").value;
      ZipSpec(Names(recs), Ids(recs));
      forall k
        ensures k in Names(recs) <==> exists i :: 0 <= i < |recs| && recs[i].name == k
      {
        if k in Names(recs) {
          var i :| 0 <= i < |Names(recs)| && Names(recs)[i] == k;
        }
        if exists i :: 0 <= i < |recs| && recs[i].name == k {
          var i :| 0 <= i < |recs| && recs[i].name == k;
          assert Names(recs)[i] == k;
        }
      }
    }
  }

  /** The names map has as keys exactly the names of the records some batch
      request answered. */
  lemma GoNamesAnswered(ids: seq<string>, service: Service)
    requires GoNames(ids, service).Success?
    ensures forall k :: k in GoNames(ids, service).value <==>
      exists i, rec :: 0 <= i < |Batches(ids)| && service(Join(",", Batches(ids)[i]), "").Some?
                       && rec in service(Join(",", Batches(ids)[i]), "").value && rec.name == k
  {
    var recs := Fetch(Batches(ids), service, "").value;
    ZipSpec(Names(recs), Ids(recs));
    AnsweredNames(Batches(ids), service, "");
  }

  /** A name is that of a record the batched requests return exactly when
      it is that of a record some batch's request answered. */
  lemma AnsweredNames(batches: seq<seq<string>>, service: Service, endpoint: string)
    requires Fetch(batches, service, endpoint).Some?
    ensures forall k :: k in Names(Fetch(batches, service, endpoint).value) <==>
      exists i, rec :: 0 <= i < |batches| && service(Join(",", batches[i]), endpoint).Some?
                       && rec in service(Join(",", batches[i]), endpoint).value && rec.name == k
  {
    FetchSpec(batches, service, endpoint);
    var recs := Fetch(batches, service, endpoint).value;
    forall k
      ensures k in Names(recs) <==>
        exists i, rec :: 0 <= i < |batches| && service(Join(",", batches[i]), endpoint).Some?
                         && rec in service(Join(",", batches[i]), endpoint).value && rec.name == k
    {
      if k in Names(recs) {
        var j :| 0 <= j < |recs| && Names(recs)[j] == k;
        assert recs[j] in recs;
        var i :| 0 <= i < |batches| && recs[j] in service(Join(",", batches[i]), endpoint).value;
      }
      if exists i, rec :: 0 <= i < |batches| && service(Join(",", batches[i]), endpoint).Some?
                          && rec in service(Join(",", batches[i]), endpoint).value && rec.name == k {
        var i, rec :| 0 <= i < |batches| && service(Join(",", batches[i]), endpoint).Some?
                      && rec in service(Join(",", batches[i]), endpoint).value && rec.name == k;
        assert rec in recs;
        var j :| 0 <= j < |recs| && recs[j] == rec;
        assert Names(recs)[j] == k;
      }
    }
  }

  // ---- get_ancestors ----

  /** `id_names`: the catalogue's ids mapped to their names. `range(len(names))`
      drives both maps, so surplus ids are ignored. */
  function IdToName(allowed: seq<string>, names: seq<string>): map<string, string>
    requires |allowed| >= |names|
  {
    Zip(allowed[..|names|], names)
  }

  /** `names_id`: the catalogue's names mapped to their ids. */
  function NameToId(allowed: seq<string>, names: seq<string>): map<string, string>
    requires |allowed| >= |names|
  {
    Zip(names, allowed[..|names|])
  }

  /** The two catalogue maps: the ids with a name and the names are the keys,
      every value comes from the other list, and when the catalogue repeats
      an id or a name, the later entry wins. */
  lemma CatalogueMaps(allowed: seq<string>, names: seq<string>)
    requires |allowed| >= |names|
    ensures forall a :: a in IdToName(allowed, names) <==> a in allowed[..|names|]
    ensures forall a :: a in IdToName(allowed, names) ==> IdToName(allowed, names)[a] in names
    ensures forall x :: x in NameToId(allowed, names) <==> x in names
    ensures forall i :: 0 <= i < |names| && LastOccurrence(allowed[..|names|], i) ==>
      IdToName(allowed, names)[allowed[i]] == names[i]
    ensures forall i :: 0 <= i < |names| && LastOccurrence(names, i) ==>
      NameToId(allowed, names)[names[i]] == allowed[i]
  {
    IdToNameSpec(allowed, names);
    NameToIdSpec(allowed, names);
  }

  lemma IdToNameSpec(allowed: seq<string>, names: seq<string>)
    requires |allowed| >= |names|
    ensures forall a :: a in IdToName(allowed, names) <==> a in allowed[..|names|]
    ensures forall a :: a in IdToName(allowed, names) ==> IdToName(allowed, names)[a] in names
    ensures forall i :: 0 <= i < |names| && LastOccurrence(allowed[..|names|], i) ==>
      IdToName(allowed, names)[allowed[i]] == names[i]
  {
    ZipSpec(allowed[..|names|], names);
    forall i | 0 <= i < |names|
      ensures allowed[..|names|][i] == allowed[i]
    {
    }
  }

  lemma NameToIdSpec(allowed: seq<string>, names: seq<string>)
    requires |allowed| >= |names|
    ensures forall x :: x in NameToId(allowed, names) <==> x in names
    ensures forall i :: 0 <= i < |names| && LastOccurrence(names, i) ==>
      NameToId(allowed, names)[names[i]] == allowed[i]
  {
    ZipSpec(names, allowed[..|names|]);
  }

  /** `[names_id[x] for x in to_search]`: the first name missing from the
      catalogue raises `KeyError`. */
  function Resolve(xs: seq<string>, namesId: map<string, string>): (r: Result<seq<string>>)
    ensures r.Success? <==> forall x :: x in xs ==> x in namesId
    ensures r.Failure? ==> r.error.KeyError? && r.error.key in xs && r.error.key !in namesId
    ensures r.Success? ==> |r.value| == |xs| && forall k :: 0 <= k < |xs| ==> r.value[k] == namesId[xs[k]]
    decreases |xs|
  {
    if |xs| == 0 then Success([])
    else if xs[0] !in namesId then Failure(KeyError(xs[0]))
    else
      assert forall x :: x in xs <==> x == xs[0] || x in xs[1..];
      match Resolve(xs[1..], namesId)
      case Failure(e) => Failure(e)
      case Success(rest) => Success([namesId[xs[0]]] + rest)
  }

  /** `[id_names[a] for a in ancestors if a in allowed]`: the names of the
      ancestors that are catalogue ids, in order. An id that is in `allowed`
      but has no name (it lies beyond `len(names)`) raises `KeyError`. */
  function Kept(ancestors: seq<string>, allowed: seq<string>, idNames: map<string, string>): (r: Result<seq<string>>)
    ensures r.Success? <==> forall a :: a in ancestors && a in allowed ==> a in idNames
    ensures r.Failure? ==> r.error.KeyError? && r.error.key in ancestors && r.error.key in allowed && r.error.key !in idNames
    ensures r.Success? ==> forall x :: x in r.value ==>
      exists a :: a in ancestors && a in allowed && a in idNames && idNames[a] == x
    ensures r.Success? ==> forall a :: a in ancestors && a in allowed ==> idNames[a] in r.value
    decreases |ancestors|
  {
    if |ancestors| == 0 then Success([])
    else
      var a := ancestors[0];
      assert forall b :: b in ancestors <==> b == a || b in ancestors[1..];
      if a in allowed && a !in idNames then Failure(KeyError(a))
      else
        match Kept(ancestors[1..], allowed, idNames)
        case Failure(e) => Failure(e)
        case Success(rest) => Success(if a in allowed then [idNames[a]] + rest else rest)
  }

  /** Element `x` of a chain is the name of a catalogue id. */
  ghost predicate NamedAncestor(x: string, allowed: seq<string>, idNames: map<string, string>)
  {
    exists a :: a in allowed && a in idNames && idNames[a] == x
  }

  /** One chain: its key is the name of a catalogue id, it ends with that key,
      and every element before it is the name of a catalogue id. */
  ghost predicate WellFormedChain(k: string, chain: seq<string>, allowed: seq<string>, idNames: map<string, string>)
  {
    && k in idNames.Values
    && |chain| >= 1 && chain[|chain| - 1] == k
    && forall j :: 0 <= j < |chain| - 1 ==> NamedAncestor(chain[j], allowed, idNames)
  }

  ghost predicate WellFormedChains(total: map<string, seq<string>>, allowed: seq<string>, idNames: map<string, string>)
  {
    forall k :: k in total ==> WellFormedChain(k, total[k], allowed, idNames)
  }

  /** The records of one answer, each stored under the catalogue name of its
      id with its kept ancestors followed by that name; a later record for
      the same name overrides an earlier one. */
  function Chains(recs: seq<GoRecord>, allowed: seq<string>, idNames: map<string, string>,
                  total: map<string, seq<string>>): (r: Result<map<string, seq<string>>>)
    requires WellFormedChains(total, allowed, idNames)
    ensures r.Success? ==> WellFormedChains(r.value, allowed, idNames)
    ensures r.Success? ==> total.Keys <= r.value.Keys
    decreases |recs|
  {
    if |recs| == 0 then Success(total)
    else if recs[0].id !in idNames then Failure(KeyError(recs[0].id))
    else
      match Kept(recs[0].ancestors, allowed, idNames)
      case Failure(e) => Failure(e)
      case Success(chain) =>
        var key := idNames[recs[0].id];
        KeptChainWellFormed(recs[0], allowed, idNames);
        Chains(recs[1..], allowed, idNames, total[key := chain + [key]])
  }

  /** The request loop of `get_ancestors`: each batch is requested and its
      records are stored before the next request. */
  function Walk(batches: seq<seq<string>>, service: Service, allowed: seq<string>,
                idNames: map<string, string>, total: map<string, seq<string>>): (r: Result<map<string, seq<string>>>)
    requires WellFormedChains(total, allowed, idNames)
    ensures r.Success? ==> WellFormedChains(r.value, allowed, idNames)
    decreases |batches|
  {
    if |batches| == 0 then Success(total)
    else
      match service(Join(",", batches[0]), "ancestors")
      case None => Failure(RequestFailed)
      case Some(recs) =>
        match Chains(recs, allowed, idNames, total)
        case Failure(e) => Failure(e)
        case Success(total') => Walk(batches[1..], service, allowed, idNames, total')
  }

  /** A record's chain, its kept ancestors followed by the name of its id,
      is well formed. */
  lemma KeptChainWellFormed(rec: GoRecord, allowed: seq<string>, idNames: map<string, string>)
    requires rec.id in idNames && Kept(rec.ancestors, allowed, idNames).Success?
    ensures WellFormedChain(idNames[rec.id], Kept(rec.ancestors, allowed, idNames).value + [idNames[rec.id]], allowed, idNames)
  {
    var chain := Kept(rec.ancestors, allowed, idNames).value;
    var key := idNames[rec.id];
    forall j | 0 <= j < |chain|
      ensures NamedAncestor((chain + [key])[j], allowed, idNames)
    {
      assert (chain + [key])[j] == chain[j] && chain[j] in chain;
    }
  }

  // ---- the content of the chains ----

  /** Every record of an answer can be stored: its id has a catalogue name,
      and so has each of its allowed ancestors. */
  ghost predicate Storable(recs: seq<GoRecord>, allowed: seq<string>, idNames: map<string, string>)
  {
    forall i :: 0 <= i < |recs| ==> recs[i].id in idNames && Kept(recs[i].ancestors, allowed, idNames).Success?
  }

  /** No later record of the answer is stored under the same name as record
      `i`. */
  ghost predicate LastStored(recs: seq<GoRecord>, idNames: map<string, string>, i: nat)
    requires i < |recs| && recs[i].id in idNames
  {
    forall j :: i < j < |recs| && recs[j].id in idNames ==> idNames[recs[j].id] != idNames[recs[i].id]
  }

  /** `out` is `total` after storing the records of an answer in order: its
      keys are the old keys and the names of the records' ids; the chain of
      a record's name is that of the last record with that name, its kept
      ancestors followed by the name; a key no record names keeps its
      chain. */
  ghost predicate Stored(recs: seq<GoRecord>, allowed: seq<string>, idNames: map<string, string>,
                         total: map<string, seq<string>>, out: map<string, seq<string>>)
    requires Storable(recs, allowed, idNames)
  {
    && (forall k :: k in out <==> k in total || exists i :: 0 <= i < |recs| && idNames[recs[i].id] == k)
    && (forall i :: 0 <= i < |recs| && LastStored(recs, idNames, i) ==>
          out[idNames[recs[i].id]] == Kept(recs[i].ancestors, allowed, idNames).value + [idNames[recs[i].id]])
    && (forall k :: k in total && (forall i :: 0 <= i < |recs| ==> idNames[recs[i].id] != k) ==> out[k] == total[k])
  }

  lemma StorableCons(recs: seq<GoRecord>, allowed: seq<string>, idNames: map<string, string>)
    requires |recs| > 0
    ensures Storable(recs, allowed, idNames) <==>
      recs[0].id in idNames && Kept(recs[0].ancestors, allowed, idNames).Success? && Storable(recs[1..], allowed, idNames)
  {
    if recs[0].id in idNames && Kept(recs[0].ancestors, allowed, idNames).Success? && Storable(recs[1..], allowed, idNames) {
      forall i | 0 <= i < |recs|
        ensures recs[i].id in idNames && Kept(recs[i].ancestors, allowed, idNames).Success?
      {
        if i > 0 {
          assert recs[1..][i - 1] == recs[i];
        }
      }
    }
    if Storable(recs, allowed, idNames) {
      forall i | 0 <= i < |recs[1..]|
        ensures recs[1..][i].id in idNames && Kept(recs[1..][i].ancestors, allowed, idNames).Success?
      {
        assert recs[1..][i] == recs[i + 1];
      }
    }
  }

  /** Storing the first record, then the rest, stores the whole answer. */
  lemma StoredStep(recs: seq<GoRecord>, allowed: seq<string>, idNames: map<string, string>,
                   total: map<string, seq<string>>, out: map<string, seq<string>>)
    requires |recs| > 0 && Storable(recs, allowed, idNames) && Storable(recs[1..], allowed, idNames)
    requires Stored(recs[1..], allowed, idNames,
                    total[idNames[recs[0].id] := Kept(recs[0].ancestors, allowed, idNames).value + [idNames[recs[0].id]]], out)
    ensures Stored(recs, allowed, idNames, total, out)
  {
    StoredStepKeys(recs, allowed, idNames, total, out);
    StoredStepLast(recs, allowed, idNames, total, out);
    StoredStepOthers(recs, allowed, idNames, total, out);
  }

  lemma StoredStepKeys(recs: seq<GoRecord>, allowed: seq<string>, idNames: map<string, string>,
                       total: map<string, seq<string>>, out: map<string, seq<string>>)
    requires |recs| > 0 && Storable(recs, allowed, idNames) && Storable(recs[1..], allowed, idNames)
    requires Stored(recs[1..], allowed, idNames,
                    total[idNames[recs[0].id] := Kept(recs[0].ancestors, allowed, idNames).value + [idNames[recs[0].id]]], out)
    ensures forall k :: k in out <==> k in total || exists i :: 0 <= i < |recs| && idNames[recs[i].id] == k
  {
    var rest := recs[1..];
    forall k
      ensures k in out <==> k in total || exists i :: 0 <= i < |recs| && idNames[recs[i].id] == k
    {
      if exists i :: 0 <= i < |rest| && idNames[rest[i].id] == k {
        var i :| 0 <= i < |rest| && idNames[rest[i].id] == k;
        assert rest[i] == recs[i + 1];
      }
      if exists i :: 0 <= i < |recs| && idNames[recs[i].id] == k {
        var i :| 0 <= i < |recs| && idNames[recs[i].id] == k;
        if i > 0 {
          assert rest[i - 1] == recs[i];
        }
      }
    }
  }

  lemma StoredStepLast(recs: seq<GoRecord>, allowed: seq<string>, idNames: map<string, string>,
                       total: map<string, seq<string>>, out: map<string, seq<string>>)
    requires |recs| > 0 && Storable(recs, allowed, idNames) && Storable(recs[1..], allowed, idNames)
    requires Stored(recs[1..], allowed, idNames,
                    total[idNames[recs[0].id] := Kept(recs[0].ancestors, allowed, idNames).value + [idNames[recs[0].id]]], out)
    ensures forall i :: 0 <= i < |recs| && LastStored(recs, idNames, i) ==>
      idNames[recs[i].id] in out
      && out[idNames[recs[i].id]] == Kept(recs[i].ancestors, allowed, idNames).value + [idNames[recs[i].id]]
  {
    var key := idNames[recs[0].id];
    var rest := recs[1..];
    forall i | 0 <= i < |recs| && LastStored(recs, idNames, i)
      ensures idNames[recs[i].id] in out
      ensures out[idNames[recs[i].id]] == Kept(recs[i].ancestors, allowed, idNames).value + [idNames[recs[i].id]]
    {
      if i == 0 {
        forall j | 0 <= j < |rest|
          ensures idNames[rest[j].id] != key
        {
          assert rest[j] == recs[j + 1];
        }
      } else {
        assert rest[i - 1] == recs[i];
        assert LastStored(rest, idNames, i - 1) by {
          forall j | i - 1 < j < |rest| && rest[j].id in idNames
            ensures idNames[rest[j].id] != idNames[rest[i - 1].id]
          {
            assert rest[j] == recs[j + 1];
          }
        }
      }
    }
  }

  lemma StoredStepOthers(recs: seq<GoRecord>, allowed: seq<string>, idNames: map<string, string>,
                         total: map<string, seq<string>>, out: map<string, seq<string>>)
    requires |recs| > 0 && Storable(recs, allowed, idNames) && Storable(recs[1..], allowed, idNames)
    requires Stored(recs[1..], allowed, idNames,
                    total[idNames[recs[0].id] := Kept(recs[0].ancestors, allowed, idNames).value + [idNames[recs[0].id]]], out)
    ensures forall k :: k in total && (forall i :: 0 <= i < |recs| ==> idNames[recs[i].id] != k) ==>
      k in out && out[k] == total[k]
  {
    var rest := recs[1..];
    forall k | k in total && (forall i :: 0 <= i < |recs| ==> idNames[recs[i].id] != k)
      ensures k in out && out[k] == total[k]
    {
      forall j | 0 <= j < |rest|
        ensures idNames[rest[j].id] != k
      {
        assert rest[j] == recs[j + 1];
      }
    }
  }

  /** Storing an answer succeeds exactly when every record can be stored,
      and otherwise raises `KeyError`; it then stores each record's chain
      under its name, a later record overriding an earlier one. */
  lemma {:induction false} ChainsContent(recs: seq<GoRecord>, allowed: seq<string>, idNames: map<string, string>,
                                         total: map<string, seq<string>>)
    requires WellFormedChains(total, allowed, idNames)
    ensures Chains(recs, allowed, idNames, total).Success? <==> Storable(recs, allowed, idNames)
    ensures Chains(recs, allowed, idNames, total).Failure? ==> Chains(recs, allowed, idNames, total).error.KeyError?
    ensures Chains(recs, allowed, idNames, total).Success? ==>
      Stored(recs, allowed, idNames, total, Chains(recs, allowed, idNames, total).value)
    decreases |recs|
  {
    if |recs| > 0 {
      StorableCons(recs, allowed, idNames);
      if recs[0].id in idNames && Kept(recs[0].ancestors, allowed, idNames).Success? {
        var key := idNames[recs[0].id];
        var total' := total[key := Kept(recs[0].ancestors, allowed, idNames).value + [key]];
        KeptChainWellFormed(recs[0], allowed, idNames);
        ChainsContent(recs[1..], allowed, idNames, total');
        assert Chains(recs, allowed, idNames, total) == Chains(recs[1..], allowed, idNames, total');
        if Storable(recs, allowed, idNames) {
          StoredStep(recs, allowed, idNames, total, Chains(recs, allowed, idNames, total).value);
        }
      }
    }
  }

  /** Storing two answers one after the other stores their concatenation. */
  lemma {:induction false} ChainsAppend(a: seq<GoRecord>, b: seq<GoRecord>, allowed: seq<string>,
                                        idNames: map<string, string>, total: map<string, seq<string>>)
    requires WellFormedChains(total, allowed, idNames)
    ensures Chains(a, allowed, idNames, total).Failure? ==>
      Chains(a + b, allowed, idNames, total) == Chains(a, allowed, idNames, total)
    ensures Chains(a, allowed, idNames, total).Success? ==>
      Chains(a + b, allowed, idNames, total) == Chains(b, allowed, idNames, Chains(a, allowed, idNames, total).value)
    decreases |a|
  {
    if |a| == 0 {
      assert a + b == b;
    } else {
      assert (a + b)[0] == a[0];
      assert (a + b)[1..] == a[1..] + b;
      if a[0].id in idNames && Kept(a[0].ancestors, allowed, idNames).Success? {
        var key := idNames[a[0].id];
        KeptChainWellFormed(a[0], allowed, idNames);
        ChainsAppend(a[1..], b, allowed, idNames, total[key := Kept(a[0].ancestors, allowed, idNames).value + [key]]);
      }
    }
  }

  /** The request loop stores the batches' answers concatenated in batch
      order, and fails when a request fails. */
  lemma {:induction false} WalkChains(batches: seq<seq<string>>, service: Service, allowed: seq<string>,
                                      idNames: map<string, string>, total: map<string, seq<string>>)
    requires WellFormedChains(total, allowed, idNames)
    ensures Fetch(batches, service, "ancestors").None? ==> Walk(batches, service, allowed, idNames, total).Failure?
    ensures Fetch(batches, service, "ancestors").Some? ==>
      Walk(batches, service, allowed, idNames, total) == Chains(Fetch(batches, service, "ancestors").value, allowed, idNames, total)
    decreases |batches|
  {
    if |batches| > 0 {
      var rest := Fetch(batches[1..], service, "ancestors");
      match service(Join(",", batches[0]), "ancestors")
      case None =>
      case Some(recs) =>
        var first := Chains(recs, allowed, idNames, total);
        if rest.Some? {
          ChainsAppend(recs, rest.value, allowed, idNames, total);
        }
        if first.Success? {
          WalkChains(batches[1..], service, allowed, idNames, first.value);
        }
    }
  }

  /** `get_ancestors(to_search, allowed, names)`. The names to search are taken
      once each; Python iterates the set in an unspecified order, modelled
      here as first-occurrence order. */
  function Ancestors(toSearch: seq<string>, allowed: seq<string>, names: seq<string>, service: Service)
    : Result<map<string, seq<string>>>
  {
    if |allowed| < |names| then Failure(IndexError)
    else
      match Resolve(Dedup(toSearch), NameToId(allowed, names))
      case Failure(e) => Failure(e)
      case Success(ids) => Walk(Batches(ids), service, allowed, IdToName(allowed, names), map[])
  }

  /** The error cases before any request: a catalogue with fewer ids than
      names raises `IndexError`, and otherwise a searched name missing from
      the catalogue raises `KeyError` naming it. */
  lemma AncestorsErrors(toSearch: seq<string>, allowed: seq<string>, names: seq<string>, service: Service)
    ensures |allowed| < |names| ==> Ancestors(toSearch, allowed, names, service) == Failure(IndexError)
    ensures |allowed| >= |names| && (exists x :: x in toSearch && x !in names) ==>
      var r := Ancestors(toSearch, allowed, names, service);
      r.Failure? && r.error.KeyError? && r.error.key in toSearch && r.error.key !in names
  {
    if |allowed| >= |names| {
      CatalogueMaps(allowed, names);
      if exists x :: x in toSearch && x !in names {
        var x :| x in toSearch && x !in names;
        assert x in Dedup(toSearch);
      }
    }
  }

  /** The records QuickGO answers for the ids of the searched names, in
      batch order; `None` when the catalogue has fewer ids than names, a
      searched name is not in it, or a request fails. */
  ghost function AncestorAnswers(toSearch: seq<string>, allowed: seq<string>, names: seq<string>, service: Service)
    : Option<seq<GoRecord>>
  {
    if |allowed| < |names| then None
    else
      match Resolve(Dedup(toSearch), NameToId(allowed, names))
      case Failure(_) => None
      case Success(ids) => Fetch(Batches(ids), service, "ancestors")
  }

  /** `get_ancestors` succeeds exactly when the searched names' ids are all
      answered and every answered record can be stored. The result then maps
      the catalogue name of each answered record's id, and nothing else, to
      the names of that record's allowed ancestors, in answer order, followed
      by the name itself; the last record answered for a name wins. */
  lemma AncestorsContent(toSearch: seq<string>, allowed: seq<string>, names: seq<string>, service: Service)
    ensures Ancestors(toSearch, allowed, names, service).Success? <==>
      && |allowed| >= |names|
      && AncestorAnswers(toSearch, allowed, names, service).Some?
      && Storable(AncestorAnswers(toSearch, allowed, names, service).value, allowed, IdToName(allowed, names))
    ensures Ancestors(toSearch, allowed, names, service).Success? ==>
      Stored(AncestorAnswers(toSearch, allowed, names, service).value, allowed, IdToName(allowed, names),
             map[], Ancestors(toSearch, allowed, names, service).value)
  {
    if |allowed| >= |names| {
      var resolved := Resolve(Dedup(toSearch), NameToId(allowed, names));
      if resolved.Success? {
        var idNames := IdToName(allowed, names);
        var batches := Batches(resolved.value);
        WalkChains(batches, service, allowed, idNames, map[]);
        var answers := Fetch(batches, service, "ancestors");
        if answers.Some? {
          ChainsContent(answers.value, allowed, idNames, map[]);
        }
      }
    }
  }

  /** Every chain consists of catalogue names: each element but the last is
      the name of a catalogue id (ancestors outside the catalogue are
      dropped), and the chain ends with the searched name itself. */
  lemma AncestorsChains(toSearch: seq<string>, allowed: seq<string>, names: seq<string>, service: Service)
    ensures Ancestors(toSearch, allowed, names, service).Success? ==>
      var total := Ancestors(toSearch, allowed, names, service).value;
      forall k :: k in total ==>
        && k in names
        && |total[k]| >= 1 && total[k][|total[k]| - 1] == k
        && (forall x :: x in total[k] ==> x in names)
        && (forall j :: 0 <= j < |total[k]| - 1 ==>
              exists a :: a in allowed[..|names|] && a in IdToName(allowed, names)
                          && IdToName(allowed, names)[a] == total[k][j])
  {
    var result := Ancestors(toSearch, allowed, names, service);
    if result.Success? {
      var total := result.value;
      assert WellFormedChains(total, allowed, IdToName(allowed, names));
      forall k | k in total
        ensures k in names && |total[k]| >= 1 && total[k][|total[k]| - 1] == k
        ensures forall x :: x in total[k] ==> x in names
        ensures forall j :: 0 <= j < |total[k]| - 1 ==>
            exists a :: a in allowed[..|names|] && a in IdToName(allowed, names)
                        && IdToName(allowed, names)[a] == total[k][j]
      {
        CatalogueChain(k, total[k], allowed, names);
      }
    }
  }

  /** One well-formed chain over the catalogue consists of catalogue names,
      ends with its key, and every element before it names a catalogue id
      that has a name. */
  lemma CatalogueChain(k: string, chain: seq<string>, allowed: seq<string>, names: seq<string>)
    requires |allowed| >= |names|
    requires WellFormedChain(k, chain, allowed, IdToName(allowed, names))
    ensures k in names && |chain| >= 1 && chain[|chain| - 1] == k
    ensures forall x :: x in chain ==> x in names
    ensures forall j :: 0 <= j < |chain| - 1 ==>
      exists a :: a in allowed[..|names|] && a in IdToName(allowed, names) && IdToName(allowed, names)[a] == chain[j]
  {
    var idNames := IdToName(allowed, names);
    CatalogueMaps(allowed, names);
    var a0 :| a0 in idNames && idNames[a0] == k;
    forall j | 0 <= j < |chain| - 1
      ensures exists a :: a in allowed[..|names|] && a in idNames && idNames[a] == chain[j]
    {
      assert NamedAncestor(chain[j], allowed, idNames);
    }
    forall x | x in chain
      ensures x in names
    {
      var j :| 0 <= j < |chain| && chain[j] == x;
      if j < |chain| - 1 {
        assert NamedAncestor(x, allowed, idNames);
      }
    }
  }
}
