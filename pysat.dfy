/** The PySAT route: decode a SAT model into bridges, test the bridged islands for
    connectivity, and loop over an external solver, blocking each disconnected model. */
module PySat {
  import opened Hashi
  import opened CnfBuilder
  import opened CnfCorrect
  import opened Graph
  import opened BruteForceSolver

  /** Bridges a model list puts on edge `k`: one for each of the edge's two variables that the
      list holds positively. */
  function CountOf(model: seq<int>, k: nat): nat
  {
    Bit(V1(k) in model) + Bit(V2(k) in model)
  }

  /** The count read off the list is the count the CNF decoding gives its true variables. */
  lemma CountDecodes(model: seq<int>, m: nat, k: nat)
    requires k < m
    ensures CountOf(model, k) == Decode(TrueVars(model), m)[k]
  {
    VarsOwned(k, k);
    TrueVarsMembers(model, V1(k));
    TrueVarsMembers(model, V2(k));
  }

  /** Reading counts back from the model list the brute-force search formats gives the
      bridge counts it found. */
  lemma CountOfModel(s: seq<int>, k: nat)
    requires Ternary(s) && k < |s|
    ensures CountOf(ModelOf(s), k) == s[k]
  {
    ModelOfEncodes(s);
    DecodeEncode(s);
    CountDecodes(ModelOf(s), |s|, k);
  }

  /** The links of the first `k` edges that the model bridges. */
  function ModelLinks(edges: seq<Edge>, model: seq<int>, k: nat): seq<Link>
    requires k <= |edges|
  {
    if k == 0 then []
    else ModelLinks(edges, model, k - 1)
         + (if CountOf(model, k - 1) > 0 then [(edges[k - 1].u as int, edges[k - 1].v as int)] else [])
  }

  lemma {:induction false} ModelLinksWithin(edges: seq<Edge>, n: nat, model: seq<int>, k: nat)
    requires k <= |edges| && EdgesWellFormed(edges, n)
    ensures LinksWithin(ModelLinks(edges, model, k), n)
  {
    if k > 0 {
      ModelLinksWithin(edges, n, model, k - 1);
    }
  }

  /** The adjacency loop of `check_connectivity_from_model`: an empty set per island, then for
      each entry of the variable map, the edge's ends are joined when the model holds either of
      its variables. */
  method ModelAdjacency(n: nat, edges: seq<Edge>, varMap: map<nat, (int, int)>, model: seq<int>)
    returns (adj: map<int, set<int>>)
    requires EdgesWellFormed(edges, n) && varMap == VarMapOf(|edges|)
    ensures Represents(adj, n, ModelLinks(edges, model, |edges|))
  {
    adj := map i | i in Range(0, n) :: {};
    ghost var links: seq<Link> := [];
    for k := 0 to |edges|
      invariant links == ModelLinks(edges, model, k) && Represents(adj, n, links)
    {
      var (v1, v2) := varMap[k];
      assert v1 == V1(k) && v2 == V2(k);
      if v1 in model || v2 in model {
        var e := edges[k];
        AddLink(adj, n, links, e.u, e.v);
        adj := adj[e.u := adj[e.u] + {e.v}];
        adj := adj[e.v := adj[e.v] + {e.u}];
        links := links + [(e.u as int, e.v as int)];
      }
    }
  }

  /** `check_connectivity_from_model`: at most one island is trivially connected; otherwise a
      depth-first flood from island 0 over the bridged edges must reach all `n` islands. */
  method CheckConnectivityFromModel(model: seq<int>, n: nat, edges: seq<Edge>, varMap: map<nat, (int, int)>)
    returns (ok: bool)
    requires EdgesWellFormed(edges, n) && varMap == VarMapOf(|edges|)
    ensures ok <==> Connected(ModelLinks(edges, model, |edges|), n)
  {
    ghost var links := ModelLinks(edges, model, |edges|);
    if n <= 1 {
      ReachesSelf(links, 0);
      return true;
    }
    var adj := ModelAdjacency(n, edges, varMap, model);
    ModelLinksWithin(edges, n, model, |edges|);
    var visited := Flood(adj, n, links, {}, 0, true);
    forall y | y in visited ensures 0 <= y < n {
      ReachesWithin(links, n, 0, y);
    }
    FullIffConnected(links, n, visited);
    ok := |visited| == n;
  }

  /** The bridges of the first `k` edges, in edge order: one per edge with a positive count. */
  function ModelBridges(edges: seq<Edge>, model: seq<int>, k: nat): seq<Bridge>
    requires k <= |edges|
  {
    if k == 0 then []
    else
      var e := edges[k - 1];
      ModelBridges(edges, model, k - 1)
      + (if CountOf(model, k - 1) > 0 then [Bridge(e.u, e.v, CountOf(model, k - 1), e.Dir())] else [])
  }

  /** `model_to_bridges`: walk the variable map in edge order and emit a bridge for every
      edge the model gives one or two bridges, with the edge's direction. */
  method ModelToBridges(edges: seq<Edge>, varMap: map<nat, (int, int)>, model: seq<int>)
    returns (bridges: seq<Bridge>)
    requires varMap == VarMapOf(|edges|)
    ensures bridges == ModelBridges(edges, model, |edges|)
  {
    bridges := [];
    for k := 0 to |edges|
      invariant bridges == ModelBridges(edges, model, k)
    {
      var (v1, v2) := varMap[k];
      var count := 0;
      if v1 in model {
        count := count + 1;
      }
      if v2 in model {
        count := count + 1;
      }
      if count > 0 {
        var e := edges[k];
        var d := if e.HEdge? then H else V;
        bridges := bridges + [Bridge(e.u, e.v, count, d)];
      }
    }
  }

  /** The emitted bridges are exactly one per edge with a positive count, carrying that count
      and the edge's ends and direction. */
  lemma {:induction false} ModelBridgesMembers(edges: seq<Edge>, model: seq<int>, k: nat, b: Bridge)
    requires k <= |edges|
    ensures b in ModelBridges(edges, model, k) <==>
              exists j :: 0 <= j < k && CountOf(model, j) > 0
                          && b == Bridge(edges[j].u, edges[j].v, CountOf(model, j), edges[j].Dir())
  {
    if k > 0 {
      ModelBridgesMembers(edges, model, k - 1, b);
    }
  }

  /** Every emitted bridge carries one or two bridges, and there is at most one per edge. */
  lemma {:induction false} ModelBridgesBounds(edges: seq<Edge>, model: seq<int>, k: nat)
    requires k <= |edges|
    ensures |ModelBridges(edges, model, k)| <= k
    ensures forall i :: 0 <= i < |ModelBridges(edges, model, k)| ==> 1 <= ModelBridges(edges, model, k)[i].count <= 2
  {
    if k > 0 {
      ModelBridgesBounds(edges, model, k - 1);
    }
  }

  /** The blocking clause of a model: the negation of each of its literals. */
  function Block(model: seq<int>): (c: seq<int>)
    ensures |c| == |model|
  {
    seq(|model|, i requires 0 <= i < |model| => -model[i])
  }

  /** An assignment satisfies the blocking clause exactly when it disagrees with the model on
      some literal. */
  lemma BlockingClause(t: set<int>, model: seq<int>)
    requires forall i :: 0 <= i < |model| ==> model[i] != 0
    ensures Holds(t, Clause(Block(model))) <==> exists i :: 0 <= i < |model| && !LitTrue(t, model[i])
  {
    forall i | 0 <= i < |model| ensures LitTrue(t, Block(model)[i]) <==> !LitTrue(t, model[i]) {
    }
  }

  /** A model with no zero and no variable listed with both signs falsifies its own blocking
      clause, so the solver cannot return it again. */
  lemma BlockRejects(model: seq<int>)
    requires forall i :: 0 <= i < |model| ==> model[i] != 0 && -model[i] !in model
    ensures !Holds(TrueVars(model), Clause(Block(model)))
  {
    BlockingClause(TrueVars(model), model);
    forall i | 0 <= i < |model| ensures LitTrue(TrueVars(model), model[i]) {
      TrueVarsMembers(model, model[i]);
      TrueVarsMembers(model, -model[i]);
    }
  }

  /** The blocking clauses of a list of models, in order. */
  function Blocks(models: seq<seq<int>>): (cnf: Cnf)
    ensures |cnf| == |models|
  {
    seq(|models|, j requires 0 <= j < |models| => Clause(Block(models[j])))
  }

  lemma BlocksAppend(models: seq<seq<int>>, m: seq<int>)
    ensures Blocks(models + [m]) == Blocks(models) + [Clause(Block(m))]
  {
  }

  /** The SAT solver as seen from the loop: given the clauses so far, a model list or `None`
      for unsatisfiable. */
  type Oracle = Cnf -> Option<seq<int>>

  /** Every model the solver returns satisfies the formula it was given. */
  ghost predicate Sound(oracle: Oracle)
  {
    forall f :: oracle(f).Some? ==> Satisfies(TrueVars(oracle(f).value), f)
  }

  /** The loop of `run_pysat`: ask the solver; stop on unsatisfiable; stop with the model if
      its bridges connect the islands; otherwise add the model's blocking clause and ask
      again.  The wall-clock timeout is an iteration budget `fuel`. */
  method RunPysat(cnf: Cnf, n: nat, edges: seq<Edge>, varMap: map<nat, (int, int)>, oracle: Oracle, fuel: nat)
    returns (model: Option<seq<int>>, timedOut: bool, connected: bool, ghost rejected: seq<seq<int>>)
    requires EdgesWellFormed(edges, n) && varMap == VarMapOf(|edges|)
    ensures connected <==> model.Some?
    ensures model.Some? ==> !timedOut && oracle(cnf + Blocks(rejected)) == model
    ensures model.Some? ==> Connected(ModelLinks(edges, model.value, |edges|), n)
    ensures Sound(oracle) && model.Some? ==> Satisfies(TrueVars(model.value), cnf)
    ensures forall j :: 0 <= j < |rejected| ==> oracle(cnf + Blocks(rejected[..j])) == Some(rejected[j])
    ensures forall j :: 0 <= j < |rejected| ==> !Connected(ModelLinks(edges, rejected[j], |edges|), n)
    ensures model.None? && !timedOut ==> oracle(cnf + Blocks(rejected)).None?
    ensures timedOut ==> model.None? && |rejected| == fuel
    ensures fuel > 0 && oracle(cnf).None? ==> model.None? && !timedOut
    ensures fuel > 0 && oracle(cnf).Some? && Connected(ModelLinks(edges, oracle(cnf).value, |edges|), n) ==>
              model == oracle(cnf)
  {
    var clauses := cnf;
    model, timedOut, connected, rejected := None, false, false, [];
    var rounds := 0;
    while true
      invariant rounds == |rejected| <= fuel && clauses == cnf + Blocks(rejected)
      invariant model.None? && !connected && !timedOut
      invariant forall j :: 0 <= j < |rejected| ==> oracle(cnf + Blocks(rejected[..j])) == Some(rejected[j])
      invariant forall j :: 0 <= j < |rejected| ==> !Connected(ModelLinks(edges, rejected[j], |edges|), n)
      invariant rounds > 0 ==> oracle(cnf).Some? && !Connected(ModelLinks(edges, oracle(cnf).value, |edges|), n)
      decreases fuel - rounds
    {
      if rounds == fuel {
        timedOut := true;
        return;
      }
      var sat := oracle(clauses);
      if rounds == 0 {
        assert clauses == cnf;
        assert sat == oracle(cnf);
      }
      if sat.None? {
        return;
      }
      var m := sat.value;
      var ok := CheckConnectivityFromModel(m, n, edges, varMap);
      if ok {
        model, connected := Some(m), true;
        if Sound(oracle) {
          SatisfiesConcat(TrueVars(m), cnf, Blocks(rejected));
        }
        return;
      }
      BlocksAppend(rejected, m);
      ghost var r := rejected + [m];
      forall j | 0 <= j < |r| ensures oracle(cnf + Blocks(r[..j])) == Some(r[j]) {
        if j < |rejected| {
          assert r[..j] == rejected[..j] && r[j] == rejected[j];
        } else {
          assert r[..j] == rejected;
        }
      }
      rejected := r;
      clauses := clauses + [Clause(Block(m))];
      rounds := rounds + 1;
    }
  }
}
