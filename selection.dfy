/** Selection of individuals from their fitnesses: tournament selection of one
    index and the generic repetition that selects many. */
module Selection {
  import opened Failures

  /** The answer of `partial_cmp`: an ordering, or None when the two values are
      unordered (a NaN fitness, for one). */
  datatype Ordering = Less | Equal | Greater

  type Comparator<-F> = (F, F) -> Option<Ordering>

  /** `a <= b` under the fitness type's partial order. */
  predicate AtMost<F>(cmp: Comparator<F>, a: F, b: F) {
    cmp(a, b) == Some(Less) || cmp(a, b) == Some(Equal)
  }

  /** The laws of `PartialOrd` the maximality of a tournament rests on, over the
      fitnesses at hand: `a > b` means `b < a`, and `<=` is transitive. */
  predicate PartialOrderOn<F>(f: seq<F>, cmp: Comparator<F>) {
    && (forall i, j :: 0 <= i < |f| && 0 <= j < |f| && cmp(f[i], f[j]) == Some(Greater) ==>
          cmp(f[j], f[i]) == Some(Less))
    && (forall i, j, k ::
          0 <= i < |f| && 0 <= j < |f| && 0 <= k < |f| && AtMost(cmp, f[i], f[j]) && AtMost(cmp, f[j], f[k])
          ==> AtMost(cmp, f[i], f[k]))
  }

  predicate ValidCandidates<F>(f: seq<F>, candidates: seq<nat>) {
    forall k :: 0 <= k < |candidates| ==> candidates[k] < |f|
  }

  /** `Iterator::max_by` over the candidates after `acc`: the running maximum
      is kept only when it compares Greater than the next candidate, so of equal
      maxima the last one wins; an unordered comparison panics. */
  function MaxBy<F>(f: seq<F>, cmp: Comparator<F>, acc: nat, rest: seq<nat>): (r: Result<nat>)
    requires acc < |f| && ValidCandidates(f, rest)
    ensures r.Ok? ==> r.value == acc || r.value in rest
    decreases |rest|
  {
    if rest == [] then Ok(acc)
    else match cmp(f[acc], f[rest[0]])
      case None => Err(IncomparableFitnesses)
      case Some(Greater) => MaxBy(f, cmp, acc, rest[1..])
      case Some(_) => MaxBy(f, cmp, rest[0], rest[1..])
  }

  /** `TournamentSelection::select`: `candidates` are the `tournament_size`
      draws of `gen_range(0..len)`, made only once the vector is known non-empty. */
  function TournamentSelect<F>(f: seq<F>, cmp: Comparator<F>, tournamentSize: nat, candidates: seq<nat>)
    : (r: Result<nat>)
    requires |candidates| == tournamentSize
    requires |f| > 0 ==> ValidCandidates(f, candidates)
    ensures r.Ok? ==> r.value < |f| && r.value in candidates
    ensures |f| == 0 ==> r == Err(EmptyFitnesses)
    ensures |f| > 0 && tournamentSize == 0 ==> r == Err(ZeroTournament)
  {
    if |f| == 0 then Err(EmptyFitnesses)
    else if candidates == [] then Err(ZeroTournament)
    else MaxBy(f, cmp, candidates[0], candidates[1..])
  }

  /** With a tournament of one the drawn candidate itself is returned: the
      selection is as uniform as the draw. */
  lemma TournamentOfOne<F>(f: seq<F>, cmp: Comparator<F>, candidates: seq<nat>)
    requires |candidates| == 1 && |f| > 0 && ValidCandidates(f, candidates)
    ensures TournamentSelect(f, cmp, 1, candidates) == Ok(candidates[0])
  {
  }

  lemma {:induction false} MaxByLast<F>(f: seq<F>, cmp: Comparator<F>, acc: nat, rest: seq<nat>)
    requires acc < |f| && ValidCandidates(f, rest)
    ensures var r := MaxBy(f, cmp, acc, rest);
            r.Ok? ==>
              || (r.value == acc && forall p :: 0 <= p < |rest| ==> cmp(f[acc], f[rest[p]]) == Some(Greater))
              || (exists q :: 0 <= q < |rest| && rest[q] == r.value &&
                    forall p :: q < p < |rest| ==> cmp(f[r.value], f[rest[p]]) == Some(Greater))
    decreases |rest|
  {
    if rest != [] {
      var r := MaxBy(f, cmp, acc, rest);
      MaxByLast(f, cmp, acc, rest[1..]);
      MaxByLast(f, cmp, rest[0], rest[1..]);
      if r.Ok? && cmp(f[acc], f[rest[0]]) != Some(Greater) {
        assert r == MaxBy(f, cmp, rest[0], rest[1..]);
        if r.value != rest[0] || !(forall p :: 0 <= p < |rest[1..]| ==> cmp(f[rest[0]], f[rest[1..][p]]) == Some(Greater)) {
          var q :| 0 <= q < |rest[1..]| && rest[1..][q] == r.value &&
                   forall p :: q < p < |rest[1..]| ==> cmp(f[r.value], f[rest[1..][p]]) == Some(Greater);
          assert rest[q + 1] == r.value;
          assert forall p :: q + 1 < p < |rest| ==> rest[p] == rest[1..][p - 1];
        } else {
          assert forall p :: 0 < p < |rest| ==> rest[p] == rest[1..][p - 1];
        }
      } else if r.Ok? {
        assert r == MaxBy(f, cmp, acc, rest[1..]);
        if !(r.value == acc && forall p :: 0 <= p < |rest[1..]| ==> cmp(f[acc], f[rest[1..][p]]) == Some(Greater)) {
          var q :| 0 <= q < |rest[1..]| && rest[1..][q] == r.value &&
                   forall p :: q < p < |rest[1..]| ==> cmp(f[r.value], f[rest[1..][p]]) == Some(Greater);
          assert rest[q + 1] == r.value;
          assert forall p :: q + 1 < p < |rest| ==> rest[p] == rest[1..][p - 1];
        } else {
          assert forall p :: 0 < p < |rest| ==> rest[p] == rest[1..][p - 1];
        }
      }
    }
  }

  /** Of equal maxima the last one drawn is returned: the winner is drawn at
      some position q, and every candidate drawn after q is strictly worse. */
  lemma TournamentLastMaximum<F>(f: seq<F>, cmp: Comparator<F>, tournamentSize: nat, candidates: seq<nat>)
    requires |candidates| == tournamentSize
    requires |f| > 0 ==> ValidCandidates(f, candidates)
    ensures var r := TournamentSelect(f, cmp, tournamentSize, candidates);
            r.Ok? ==>
              exists q :: 0 <= q < |candidates| && candidates[q] == r.value &&
                forall p :: q < p < |candidates| ==> cmp(f[r.value], f[candidates[p]]) == Some(Greater)
  {
    var r := TournamentSelect(f, cmp, tournamentSize, candidates);
    if r.Ok? {
      var rest := candidates[1..];
      MaxByLast(f, cmp, candidates[0], rest);
      assert forall p :: 0 < p < |candidates| ==> candidates[p] == rest[p - 1];
      if exists q :: 0 <= q < |rest| && rest[q] == r.value &&
           forall p :: q < p < |rest| ==> cmp(f[r.value], f[rest[p]]) == Some(Greater) {
        var q :| 0 <= q < |rest| && rest[q] == r.value &&
           forall p :: q < p < |rest| ==> cmp(f[r.value], f[rest[p]]) == Some(Greater);
        assert candidates[q + 1] == r.value;
      } else {
        assert candidates[0] == r.value;
      }
    }
  }

  lemma {:induction false} MaxByMaximal<F>(f: seq<F>, cmp: Comparator<F>, acc: nat, rest: seq<nat>)
    requires PartialOrderOn(f, cmp) && acc < |f| && ValidCandidates(f, rest)
    ensures var r := MaxBy(f, cmp, acc, rest);
            r.Ok? ==>
              && (acc == r.value || AtMost(cmp, f[acc], f[r.value]))
              && forall p :: 0 <= p < |rest| ==> rest[p] == r.value || AtMost(cmp, f[rest[p]], f[r.value])
    decreases |rest|
  {
    var r := MaxBy(f, cmp, acc, rest);
    if rest != [] && r.Ok? {
      var w := r.value;
      assert forall p :: 0 < p < |rest| ==> rest[p] == rest[1..][p - 1];
      if cmp(f[acc], f[rest[0]]) == Some(Greater) {
        MaxByMaximal(f, cmp, acc, rest[1..]);
        assert AtMost(cmp, f[rest[0]], f[acc]);
      } else {
        MaxByMaximal(f, cmp, rest[0], rest[1..]);
        assert AtMost(cmp, f[acc], f[rest[0]]);
      }
    }
  }

  /** Under the laws of `PartialOrd`, the winner's fitness is at least that of
      every other candidate drawn. */
  lemma TournamentMaximal<F>(f: seq<F>, cmp: Comparator<F>, tournamentSize: nat, candidates: seq<nat>)
    requires |candidates| == tournamentSize
    requires |f| > 0 ==> ValidCandidates(f, candidates)
    requires PartialOrderOn(f, cmp)
    ensures var r := TournamentSelect(f, cmp, tournamentSize, candidates);
            r.Ok? ==>
              forall p :: 0 <= p < |candidates| && candidates[p] != r.value ==>
                AtMost(cmp, f[candidates[p]], f[r.value])
  {
    var r := TournamentSelect(f, cmp, tournamentSize, candidates);
    if r.Ok? {
      MaxByMaximal(f, cmp, candidates[0], candidates[1..]);
      assert forall p :: 0 < p < |candidates| ==> candidates[p] == candidates[1..][p - 1];
    }
  }

  lemma {:induction false} MaxByFails<F>(f: seq<F>, cmp: Comparator<F>, acc: nat, rest: seq<nat>)
    requires acc < |f| && ValidCandidates(f, rest)
    ensures var r := MaxBy(f, cmp, acc, rest);
            r.Err? ==>
              && r.panic == IncomparableFitnesses
              && exists a, b :: (a == acc || a in rest) && b in rest && cmp(f[a], f[b]) == None
    decreases |rest|
  {
    if rest != [] && cmp(f[acc], f[rest[0]]).Some? {
      if cmp(f[acc], f[rest[0]]) == Some(Greater) {
        MaxByFails(f, cmp, acc, rest[1..]);
      } else {
        MaxByFails(f, cmp, rest[0], rest[1..]);
      }
    }
  }

  /** An unordered comparison is never treated as a tie: the selection panics
      only when two drawn candidates are unordered, and does panic when the
      first two are. */
  lemma TournamentIncomparable<F>(f: seq<F>, cmp: Comparator<F>, tournamentSize: nat, candidates: seq<nat>)
    requires |candidates| == tournamentSize
    requires |f| > 0 ==> ValidCandidates(f, candidates)
    ensures var r := TournamentSelect(f, cmp, tournamentSize, candidates);
            r == Err(IncomparableFitnesses) ==>
              exists p, q :: 0 <= p < |candidates| && 0 <= q < |candidates| &&
                cmp(f[candidates[p]], f[candidates[q]]) == None
    ensures |f| > 0 && tournamentSize >= 2 && cmp(f[candidates[0]], f[candidates[1]]) == None ==>
              TournamentSelect(f, cmp, tournamentSize, candidates) == Err(IncomparableFitnesses)
  {
    var r := TournamentSelect(f, cmp, tournamentSize, candidates);
    if r == Err(IncomparableFitnesses) {
      var rest := candidates[1..];
      MaxByFails(f, cmp, candidates[0], rest);
      var a, b :| (a == candidates[0] || a in rest) && b in rest && cmp(f[a], f[b]) == None;
      var p :| 0 <= p < |candidates| && candidates[p] == a;
      var q :| 0 <= q < |rest| && rest[q] == b;
      assert candidates[q + 1] == b;
    }
  }

  lemma {:induction false} MaxByNaN<F>(f: seq<F>, cmp: Comparator<F>, acc: nat, rest: seq<nat>, x: nat)
    requires acc < |f| && ValidCandidates(f, rest) && x < |f|
    requires forall y :: 0 <= y < |f| ==> cmp(f[x], f[y]) == None && cmp(f[y], f[x]) == None
    requires (acc == x && rest != []) || x in rest
    ensures MaxBy(f, cmp, acc, rest) == Err(IncomparableFitnesses)
    decreases |rest|
  {
    if acc != x && rest[0] != x {
      assert x in rest[1..];
      match cmp(f[acc], f[rest[0]])
      case None =>
      case Some(Greater) => MaxByNaN(f, cmp, acc, rest[1..], x);
      case Some(_) => MaxByNaN(f, cmp, rest[0], rest[1..], x);
    }
  }

  /** A fitness unordered against every fitness (a NaN) that is drawn anywhere
      in a tournament of two or more makes the selection panic: it is never
      passed over as a tie. */
  lemma TournamentNaN<F>(f: seq<F>, cmp: Comparator<F>, tournamentSize: nat, candidates: seq<nat>, x: nat)
    requires |candidates| == tournamentSize && tournamentSize >= 2
    requires ValidCandidates(f, candidates) && x in candidates
    requires forall y :: 0 <= y < |f| ==> cmp(f[x], f[y]) == None && cmp(f[y], f[x]) == None
    ensures TournamentSelect(f, cmp, tournamentSize, candidates) == Err(IncomparableFitnesses)
  {
    var rest := candidates[1..];
    assert candidates == [candidates[0]] + rest;
    MaxByNaN(f, cmp, candidates[0], rest, x);
  }

  lemma {:induction false} MaxBySingle<F>(f: seq<F>, cmp: Comparator<F>, rest: seq<nat>)
    requires |f| == 1 && ValidCandidates(f, rest)
    ensures MaxBy(f, cmp, 0, rest)
         == if rest == [] || cmp(f[0], f[0]).Some? then Ok(0) else Err(IncomparableFitnesses)
    decreases |rest|
  {
    if rest != [] {
      assert rest[0] == 0;
      MaxBySingle(f, cmp, rest[1..]);
    }
  }

  /** On a vector of one fitness every selection that does not panic returns 0;
      it panics when the tournament is empty, or when it holds two or more
      candidates and the only fitness is unordered against itself (NaN). */
  lemma TournamentSingleFitness<F>(f: seq<F>, cmp: Comparator<F>, tournamentSize: nat, candidates: seq<nat>)
    requires |f| == 1 && |candidates| == tournamentSize && ValidCandidates(f, candidates)
    ensures TournamentSelect(f, cmp, tournamentSize, candidates)
         == if tournamentSize == 0 then Err(ZeroTournament)
            else if tournamentSize == 1 || cmp(f[0], f[0]).Some? then Ok(0)
            else Err(IncomparableFitnesses)
  {
    if tournamentSize > 0 {
      assert candidates[0] == 0;
      MaxBySingle(f, cmp, candidates[1..]);
    }
  }

  /** `select_n` for any select-one strategy: `selectOne(draws[k])` is the k-th
      independent call of `select` on the same fitnesses. A panicking call ends
      the whole selection. */
  method SelectN<D>(selectOne: D -> Result<nat>, draws: seq<D>, n: nat) returns (r: Result<seq<nat>>)
    requires |draws| == n
    ensures r.Ok? ==> |r.value| == n && forall k :: 0 <= k < n ==> selectOne(draws[k]) == Ok(r.value[k])
    ensures r.Err? ==>
              exists k :: 0 <= k < n && selectOne(draws[k]) == Err(r.panic) &&
                forall j :: 0 <= j < k ==> selectOne(draws[j]).Ok?
  {
    var selected: seq<nat> := [];
    var i := 0;
    while i < n
      invariant 0 <= i <= n && |selected| == i
      invariant forall k :: 0 <= k < i ==> selectOne(draws[k]) == Ok(selected[k])
    {
      var one := selectOne(draws[i]);
      if one.Err? {
        return Err(one.panic);
      }
      selected := selected + [one.value];
      i := i + 1;
    }
    r := Ok(selected);
  }
}
