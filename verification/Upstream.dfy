/** Upstream model reconciliation of controller/channel_upstream_update.go: ordered lists of model
    names, detection of pending changes under redirects and ignore rules, and their application. */
module Upstream {
  import opened Text
  import opened OrderedSets

  // ----- ordered sets of names -----

  /** What every list helper returns: no duplicates, no blanks, no white space at the ends. */
  ghost predicate Canonical(s: seq<string>) {
    Distinct(s) && forall x :: x in s ==> x != [] && Trimmed(x)
  }

  /** `lo.FilterMap`: trims every name and leaves out the blank ones. */
  function Cleaned(names: seq<string>): seq<string> {
    if names == [] then []
    else
      var n := |names| - 1;
      Cleaned(names[..n]) + if Trim(names[n]) == [] then [] else [Trim(names[n])]
  }

  function Normalize(names: seq<string>): seq<string> {
    Uniq(Cleaned(names))
  }

  function Merge(base: seq<string>, appended: seq<string>): seq<string> {
    Normalize(base) + Minus(Normalize(appended), Normalize(base))
  }

  function Subtract(base: seq<string>, removed: seq<string>): seq<string> {
    Minus(Normalize(base), Normalize(removed))
  }

  function Intersect(base: seq<string>, allowed: seq<string>): seq<string> {
    Only(Normalize(base), Normalize(allowed))
  }

  /** Add wins when a name is in both selections. */
  function ApplySelected(origin: seq<string>, add: seq<string>, remove: seq<string>): seq<string> {
    Subtract(Merge(origin, Normalize(add)), Subtract(Normalize(remove), Normalize(add)))
  }

  /** `x` is one of the names, trimmed. */
  ghost predicate Mentions(names: seq<string>, x: string) {
    exists i :: 0 <= i < |names| && Trim(names[i]) == x
  }

  lemma MentionsLast(names: seq<string>, x: string)
    requires names != []
    ensures Mentions(names, x) <==> Mentions(names[..|names| - 1], x) || Trim(names[|names| - 1]) == x
  {
    hide Trim;
    var n := |names| - 1;
    if Mentions(names, x) {
      var i :| 0 <= i < |names| && Trim(names[i]) == x;
      assert i < n ==> names[..n][i] == names[i];
    }
    if Mentions(names[..n], x) {
      var i :| 0 <= i < n && Trim(names[..n][i]) == x;
      assert names[..n][i] == names[i];
    }
  }

  lemma {:induction false} CleanedMembers(names: seq<string>, x: string)
    ensures x in Cleaned(names) <==> x != [] && Mentions(names, x)
    ensures x in Cleaned(names) ==> Trimmed(x)
  {
    if names != [] {
      var n := |names| - 1;
      CleanedMembers(names[..n], x);
      TrimSpec(names[n]);
      MentionsLast(names, x);
      hide Trim, Trimmed, Mentions;
    }
  }

  lemma {:induction false} CleanedFixed(s: seq<string>)
    requires forall x :: x in s ==> x != [] && Trimmed(x)
    ensures Cleaned(s) == s
  {
    if s != [] {
      var n := |s| - 1;
      assert s[n] in s;
      assert Trim(s[n]) == s[n] by {
        TrimFixed(s[n]);
      }
      hide Trim, Trimmed;
      assert s == s[..n] + [s[n]];
      forall x | x in s[..n]
        ensures x != [] && Trimmed(x)
      {
        assert x in s;
      }
      CleanedFixed(s[..n]);
    }
  }

  /** One of the names is `x` with white space around it, or none. */
  ghost predicate Written(names: seq<string>, x: string) {
    Trimmed(x) && exists i :: 0 <= i < |names| && Surrounded(names[i], x)
  }

  lemma MentionsExactly(names: seq<string>, x: string)
    ensures Mentions(names, x) <==> Written(names, x)
  {
    hide Trim, Surrounded, Trimmed;
    forall i | 0 <= i < |names|
      ensures Trim(names[i]) == x <==> Trimmed(x) && Surrounded(names[i], x)
    {
      TrimExact(names[i], x);
    }
  }

  /** `x` is mentioned before `y` is. */
  ghost predicate MentionedBefore(names: seq<string>, x: string, y: string) {
    exists i :: 0 <= i < |names| && Trim(names[i]) == x && forall j :: 0 <= j <= i ==> Trim(names[j]) != y
  }

  /** The names come in the order of their first mention. */
  lemma {:induction false} NormalizeOrder(names: seq<string>)
    ensures var r := Normalize(names);
      forall p, q :: 0 <= p < q < |r| ==> MentionedBefore(names, r[p], r[q])
  {
    if names != [] {
      var n := |names| - 1;
      var front, z := names[..n], Trim(names[n]);
      NormalizeOrder(front);
      NormalizeNext(names);
      NormalizeSpec(front);
      var u, r := Normalize(front), Normalize(names);
      hide Normalize, Trim, Canonical;
      forall p, q | 0 <= p < q < |r|
        ensures MentionedBefore(names, r[p], r[q])
      {
        if q < |u| {
          BeforeGrows(names, u[p], u[q]);
        } else {
          assert u[p] in u;
          FirstOfNew(names, u[p], z);
        }
      }
    }
  }

  lemma NormalizeNext(names: seq<string>)
    requires names != []
    ensures var n, u := |names| - 1, Normalize(names[..|names| - 1]);
      var z := Trim(names[n]);
      Normalize(names) == if z == [] || z in u then u else u + [z]
  {
    hide Trim;
    var n := |names| - 1;
    var k, z := Cleaned(names[..n]), Trim(names[n]);
    if z == [] {
      assert Cleaned(names) == k;
    } else {
      assert Cleaned(names) == k + [z];
      assert (k + [z])[..|k|] == k;
    }
  }

  lemma BeforeGrows(names: seq<string>, x: string, y: string)
    requires names != [] && MentionedBefore(names[..|names| - 1], x, y)
    ensures MentionedBefore(names, x, y)
  {
    hide Trim;
    var front := names[..|names| - 1];
    var i :| 0 <= i < |front| && Trim(front[i]) == x && forall j :: 0 <= j <= i ==> Trim(front[j]) != y;
    assert names[i] == front[i];
    assert forall j :: 0 <= j <= i ==> names[j] == front[j];
  }

  lemma FirstOfNew(names: seq<string>, x: string, z: string)
    requires names != [] && Mentions(names[..|names| - 1], x) && !Mentions(names[..|names| - 1], z)
    ensures MentionedBefore(names, x, z)
  {
    hide Trim;
    var front := names[..|names| - 1];
    var i :| 0 <= i < |front| && Trim(front[i]) == x;
    assert names[i] == front[i];
    forall j | 0 <= j <= i
      ensures Trim(names[j]) != z
    {
      assert names[j] == front[j];
    }
  }

  /** Normalisation yields a canonical list of exactly the non-blank names, freed of white space around them. */
  lemma NormalizeSpec(names: seq<string>)
    ensures Canonical(Normalize(names))
    ensures forall x :: x in Normalize(names) <==> x != [] && Written(names, x)
    ensures forall x :: x in Normalize(names) <==> x != [] && Mentions(names, x)
  {
    NormalizeMembers(names);
    hide Normalize, Mentions, Written, Canonical;
    forall x
      ensures Mentions(names, x) <==> Written(names, x)
    {
      MentionsExactly(names, x);
    }
  }

  lemma NormalizeMembers(names: seq<string>)
    ensures Canonical(Normalize(names))
    ensures forall x :: x in Normalize(names) <==> x != [] && Mentions(names, x)
  {
    hide Mentions, Trimmed, Cleaned, Uniq;
    forall x
      ensures x in Cleaned(names) <==> x != [] && Mentions(names, x)
      ensures x in Cleaned(names) ==> Trimmed(x)
    {
      CleanedMembers(names, x);
    }
    UniqSpec(Cleaned(names));
  }

  /** Normalisation is idempotent: it leaves canonical lists alone. */
  lemma NormalizeFixed(s: seq<string>)
    requires Canonical(s)
    ensures Normalize(s) == s
  {
    CleanedFixed(s);
    UniqFixed(s);
  }

  lemma MergeSpec(base: seq<string>, appended: seq<string>)
    ensures Canonical(Merge(base, appended)) && Normalize(base) <= Merge(base, appended)
    ensures Subsequence(Merge(base, appended)[|Normalize(base)|..], Normalize(appended))
    ensures forall x :: x in Merge(base, appended) <==> x in Normalize(base) || x in Normalize(appended)
  {
    hide Normalize, Filter, Trim, Trimmed, Subsequence;
    NormalizeSpec(base);
    NormalizeSpec(appended);
    FilterSpec(Normalize(appended), x => x !in Normalize(base));
    ConcatDistinct(Normalize(base), Minus(Normalize(appended), Normalize(base)));
    assert Merge(base, appended)[|Normalize(base)|..] == Minus(Normalize(appended), Normalize(base));
  }

  lemma SubtractSpec(base: seq<string>, removed: seq<string>)
    ensures Canonical(Subtract(base, removed)) && Subsequence(Subtract(base, removed), Normalize(base))
    ensures forall x :: x in Subtract(base, removed) <==> x in Normalize(base) && x !in Normalize(removed)
  {
    hide Normalize, Filter, Trim, Trimmed, Subsequence;
    NormalizeSpec(base);
    FilterSpec(Normalize(base), x => x !in Normalize(removed));
  }

  lemma IntersectSpec(base: seq<string>, allowed: seq<string>)
    ensures Canonical(Intersect(base, allowed)) && Subsequence(Intersect(base, allowed), Normalize(base))
    ensures forall x :: x in Intersect(base, allowed) <==> x in Normalize(base) && x in Normalize(allowed)
  {
    hide Normalize, Filter, Trim, Trimmed, Subsequence;
    NormalizeSpec(base);
    FilterSpec(Normalize(base), x => x in Normalize(allowed));
  }

  lemma ApplySelectedSpec(origin: seq<string>, add: seq<string>, remove: seq<string>)
    ensures Canonical(ApplySelected(origin, add, remove))
    ensures forall x :: x in ApplySelected(origin, add, remove) <==>
      x in Normalize(add) || (x in Normalize(origin) && x !in Normalize(remove))
    ensures Subsequence(ApplySelected(origin, add, remove), Merge(origin, Normalize(add)))
  {
    hide Normalize, Merge, Subtract, Canonical, Subsequence;
    NormalizeSpec(add);
    NormalizeSpec(remove);
    NormalizeFixed(Normalize(add));
    NormalizeFixed(Normalize(remove));
    var merged := Merge(origin, Normalize(add));
    MergeSpec(origin, Normalize(add));
    NormalizeFixed(merged);
    var gone := Subtract(Normalize(remove), Normalize(add));
    SubtractSpec(Normalize(remove), Normalize(add));
    NormalizeFixed(gone);
    SubtractSpec(merged, gone);
  }

  // ----- detection -----

  const REGEX_PREFIX := "regex:"

  /** One ignore rule: a literal name, or a pattern after the prefix. `matches(p, n)` is the regular
      expression engine, false for a pattern that does not compile. */
  predicate RuleHides(rule: string, name: string, matches: (string, string) -> bool) {
    if REGEX_PREFIX <= rule then matches(Trim(rule[|REGEX_PREFIX|..]), name) else rule == name
  }

  predicate Hidden(rules: seq<string>, name: string, matches: (string, string) -> bool) {
    exists i :: 0 <= i < |rules| && RuleHides(rules[i], name, matches)
  }

  /** `rule` is the pattern `p` behind the prefix, with white space around it. */
  ghost predicate IsPattern(rule: string, p: string) {
    REGEX_PREFIX <= rule && Trimmed(p) && Surrounded(rule[|REGEX_PREFIX|..], p)
  }

  /** A name is hidden exactly by a rule that is that name and no pattern, or by a pattern that matches it. */
  lemma HiddenExactly(rules: seq<string>, name: string, matches: (string, string) -> bool)
    ensures Hidden(rules, name, matches) <==>
      || (name in rules && !(REGEX_PREFIX <= name))
      || exists rule, p :: rule in rules && IsPattern(rule, p) && matches(p, name)
  {
    hide Trim, Surrounded, Trimmed;
    if Hidden(rules, name, matches) {
      var i :| 0 <= i < |rules| && RuleHides(rules[i], name, matches);
      if REGEX_PREFIX <= rules[i] {
        var body := rules[i][|REGEX_PREFIX|..];
        TrimExact(body, Trim(body));
        assert IsPattern(rules[i], Trim(body));
      }
    }
    if rule, p :| rule in rules && IsPattern(rule, p) && matches(p, name) {
      TrimExact(rule[|REGEX_PREFIX|..], p);
      var i :| 0 <= i < |rules| && rules[i] == rule;
      assert RuleHides(rules[i], name, matches);
    }
    if name in rules && !(REGEX_PREFIX <= name) {
      var i :| 0 <= i < |rules| && rules[i] == name;
      assert RuleHides(rules[i], name, matches);
    }
  }

  /** What a channel reconciles against: the upstream list, the redirects and the pattern engine. */
  datatype World = World(upstream: seq<string>, mapping: map<string, string>, matches: (string, string) -> bool)

  ghost function Covered(w: World, local: seq<string>): set<string> {
    (set x | x in Normalize(local)) + w.mapping.Values
  }

  ghost function PendingAdd(w: World, local: seq<string>, ignored: seq<string>): seq<string> {
    var covered, rules := Covered(w, local), Normalize(ignored);
    Normalize(Filter(Normalize(w.upstream), x => x !in covered && !Hidden(rules, x, w.matches)))
  }

  ghost function PendingRemove(w: World, local: seq<string>): seq<string> {
    var upstream := Normalize(w.upstream);
    Normalize(Filter(Normalize(local), x => x !in w.mapping.Keys && x !in upstream))
  }

  /** Exactly the upstream names that are neither local, nor a redirect target, nor hidden. */
  lemma PendingAddSpec(w: World, local: seq<string>, ignored: seq<string>)
    ensures Canonical(PendingAdd(w, local, ignored))
    ensures Subsequence(PendingAdd(w, local, ignored), Normalize(w.upstream))
    ensures forall x :: x in PendingAdd(w, local, ignored) <==>
      && x in Normalize(w.upstream) && x !in Normalize(local) && x !in w.mapping.Values
      && !Hidden(Normalize(ignored), x, w.matches)
  {
    hide Normalize, Filter, Hidden, Trim, Trimmed, Subsequence;
    var covered, rules := Covered(w, local), Normalize(ignored);
    NormalizeSpec(w.upstream);
    FilterSpec(Normalize(w.upstream), x => x !in covered && !Hidden(rules, x, w.matches));
    NormalizeFixed(Filter(Normalize(w.upstream), x => x !in covered && !Hidden(rules, x, w.matches)));
  }

  /** Exactly the local names that are no redirect source and not upstream. */
  lemma PendingRemoveSpec(w: World, local: seq<string>)
    ensures Canonical(PendingRemove(w, local))
    ensures Subsequence(PendingRemove(w, local), Normalize(local))
    ensures forall x :: x in PendingRemove(w, local) <==>
      x in Normalize(local) && x !in w.mapping.Keys && x !in Normalize(w.upstream)
  {
    hide Normalize, Filter, Trim, Trimmed, Subsequence;
    var upstream := Normalize(w.upstream);
    NormalizeSpec(local);
    FilterSpec(Normalize(local), x => x !in w.mapping.Keys && x !in upstream);
    NormalizeFixed(Filter(Normalize(local), x => x !in w.mapping.Keys && x !in upstream));
  }

  // ----- the channel -----

  /** The fields of a channel and its settings that reconciliation reads and writes. */
  datatype Channel = Channel(models: string, ignored: seq<string>, detected: seq<string>, removed: seq<string>,
                             lastCheck: int)

  function TrimCommas(s: string): string {
    if s != [] && s[0] == ',' then TrimCommas(s[1..])
    else if s != [] && s[|s| - 1] == ',' then TrimCommas(s[..|s| - 1])
    else s
  }

  /** `GetModels`: the comma-separated text as a list. */
  function GetModels(models: string): seq<string> {
    if models == [] then [] else Split(TrimCommas(models), ',')
  }

  function Local(c: Channel): seq<string> {
    Normalize(GetModels(c.models))
  }

  /** What one selective application computes. */
  datatype Applied = Applied(add: seq<string>, ignore: seq<string>, remove: seq<string>, next: seq<string>,
                             remaining: seq<string>, remainingRemove: seq<string>)

  function Selection(c: Channel, addIn: seq<string>, ignoreIn: seq<string>, removeIn: seq<string>): Applied {
    var pendingAdd, pendingRemove := Normalize(c.detected), Normalize(c.removed);
    var add := Intersect(addIn, pendingAdd);
    var ignore := Intersect(ignoreIn, pendingAdd);
    var remove := Subtract(Intersect(removeIn, pendingRemove), add);
    Applied(add, ignore, remove, ApplySelected(Local(c), add, remove),
            Subtract(pendingAdd, add + ignore), Subtract(pendingRemove, remove))
  }

  /** `applyChannelUpstreamModelUpdates` on the in-memory channel. */
  function Apply(c: Channel, addIn: seq<string>, ignoreIn: seq<string>, removeIn: seq<string>, now: int): Channel {
    var a := Selection(c, addIn, ignoreIn, removeIn);
    var ignored := Merge(c.ignored, a.ignore);
    Channel(if a.next != Local(c) then Join(a.next, ',') else c.models,
            if a.add == [] then ignored else Subtract(ignored, a.add),
            a.remaining, a.remainingRemove, now)
  }

  /** The detection results recorded on the channel are those of `w`. */
  ghost predicate Fresh(c: Channel, w: World) {
    c.detected == PendingAdd(w, GetModels(c.models), c.ignored) && c.removed == PendingRemove(w, GetModels(c.models))
  }

  // ----- model names as comma-separated text -----

  ghost predicate CommaFree(s: seq<string>) {
    forall x :: x in s ==> ',' !in x
  }

  lemma {:induction false} JoinEnds(names: seq<string>)
    requires names != [] && forall i :: 0 <= i < |names| ==> names[i] != []
    ensures var t := Join(names, ','); t != [] && t[0] == names[0][0]
    ensures var t, z := Join(names, ','), names[|names| - 1]; t[|t| - 1] == z[|z| - 1]
  {
    if |names| > 1 {
      var rest, t := names[1..], Join(names, ',');
      var u := Join(rest, ',');
      assert t == names[0] + [','] + u;
      assert rest[0] != [] && rest[|rest| - 1] == names[|names| - 1];
      JoinEnds(rest);
      hide Join;
      assert t[|t| - 1] == u[|u| - 1];
    }
  }

  /** Storing comma-free names as text and reading them back gives the same names. */
  lemma LocalOfJoin(names: seq<string>)
    requires Canonical(names) && CommaFree(names)
    ensures Normalize(GetModels(Join(names, ','))) == names
  {
    if names == [] {
      assert Normalize([]) == [];
    } else {
      assert forall i :: 0 <= i < |names| ==> names[i] in names;
      JoinEnds(names);
      assert names[0] in names && names[|names| - 1] in names;
      assert names[0][0] in names[0] && names[|names| - 1][|names[|names| - 1]| - 1] in names[|names| - 1];
      assert TrimCommas(Join(names, ',')) == Join(names, ',');
      SplitJoin(names, ',');
      NormalizeFixed(names);
    }
  }

  /** Names read back from text never contain a comma. */
  lemma LocalCommaFree(models: string)
    ensures CommaFree(Normalize(GetModels(models)))
  {
    var parts := GetModels(models);
    NormalizeSpec(parts);
    forall x | x in Normalize(parts)
      ensures ',' !in x
    {
      var i :| 0 <= i < |parts| && Trim(parts[i]) == x;
      SplitParts(TrimCommas(models), ',');
      TrimSpec(parts[i]);
    }
  }

  /** `x` is one of the names that `name` falls into when it is stored as text and read back. */
  ghost predicate Piece(x: string, name: string) {
    x != [] && Mentions(Split(name, ','), x)
  }

  lemma MentionsConcat(a: seq<string>, b: seq<string>, x: string)
    ensures Mentions(a + b, x) <==> Mentions(a, x) || Mentions(b, x)
  {
    hide Trim;
    if Mentions(a, x) {
      var i :| 0 <= i < |a| && Trim(a[i]) == x;
      assert (a + b)[i] == a[i];
    }
    if Mentions(b, x) {
      var i :| 0 <= i < |b| && Trim(b[i]) == x;
      assert (a + b)[|a| + i] == b[i];
    }
  }

  lemma BlankMentionsNothing(x: string)
    requires x != []
    ensures !Mentions([[]], x)
  {
  }

  /** Commas at the ends only surround blank parts. */
  lemma {:induction false} TrimCommasKeeps(s: string, x: string)
    requires x != []
    ensures Piece(x, TrimCommas(s)) <==> Piece(x, s)
    decreases |s|
  {
    if s != [] && s[0] == ',' {
      assert s == [] + [','] + s[1..];
      SplitConcat([], s[1..], ',');
      MentionsConcat([[]], Split(s[1..], ','), x);
      BlankMentionsNothing(x);
      hide Mentions;
      TrimCommasKeeps(s[1..], x);
    } else if s != [] && s[|s| - 1] == ',' {
      var front := s[..|s| - 1];
      assert s == front + [','] + [];
      SplitConcat(front, [], ',');
      MentionsConcat(Split(front, ','), [[]], x);
      BlankMentionsNothing(x);
      hide Mentions;
      TrimCommasKeeps(front, x);
    }
  }

  lemma {:induction false} JoinPieces(names: seq<string>, x: string)
    requires names != []
    ensures Piece(x, Join(names, ',')) <==> exists i :: 0 <= i < |names| && Piece(x, names[i])
  {
    hide Mentions;
    if |names| > 1 {
      var rest := names[1..];
      JoinPieces(rest, x);
      assert Join(names, ',') == names[0] + [','] + Join(rest, ',');
      SplitConcat(names[0], Join(rest, ','), ',');
      MentionsConcat(Split(names[0], ','), Split(Join(rest, ','), ','), x);
      hide Join, Split;
      if Piece(x, Join(rest, ',')) {
        var i :| 0 <= i < |rest| && Piece(x, rest[i]);
        assert names[i + 1] == rest[i];
      }
      forall i | 0 <= i < |names| && Piece(x, names[i])
        ensures i == 0 || Piece(x, rest[i - 1])
      {
      }
    }
  }

  /** What names become when they are stored as text and read back, commas or not: their pieces. */
  lemma ReadBack(names: seq<string>, x: string)
    ensures x in Normalize(GetModels(Join(names, ','))) <==> exists y :: y in names && Piece(x, y)
  {
    hide Normalize, Split, Mentions;
    var s := Join(names, ',');
    NormalizeSpec(GetModels(s));
    if names == [] {
      NothingRead(x);
    } else {
      hide Join;
      if x != [] {
        JoinPieces(names, x);
        TrimCommasKeeps(s, x);
        NoPieceOfNothing(x);
        assert x in Normalize(GetModels(s)) <==> Piece(x, s);
      }
      forall y | y in names && Piece(x, y)
        ensures exists i :: 0 <= i < |names| && Piece(x, names[i])
      {
        var i :| 0 <= i < |names| && names[i] == y;
      }
    }
  }

  /** The local models are the pieces of the stored text: its comma-separated parts, freed of white space around them,
      blank ones left out. */
  lemma LocalExactly(c: Channel, x: string)
    ensures x in Local(c) <==> Piece(x, c.models)
    ensures Piece(x, c.models) <==> x != [] && Written(Split(c.models, ','), x)
  {
    NormalizeSpec(GetModels(c.models));
    MentionsExactly(Split(c.models, ','), x);
    hide Normalize, Split, Mentions, Written;
    if x != [] {
      TrimCommasKeeps(c.models, x);
      NoPieceOfNothing(x);
    }
  }

  lemma NothingRead(x: string)
    ensures x !in Normalize(GetModels([]))
  {
  }

  lemma NoPieceOfNothing(x: string)
    ensures !Piece(x, []) && (x != [] ==> !Mentions([], x))
  {
  }

  /** A name without commas is its own only piece. */
  lemma PlainPiece(x: string, name: string)
    requires name != [] && Trimmed(name) && ',' !in name
    ensures Piece(x, name) <==> x == name
  {
    SplitNoSep(name, ',');
    TrimFixed(name);
    hide Trim, Split;
    assert [name][0] == name;
  }

  // ----- selective application -----

  lemma NormalizeClean(s: seq<string>)
    requires forall x :: x in s ==> x != [] && Trimmed(x)
    ensures forall x :: x in Normalize(s) <==> x in s
  {
    CleanedFixed(s);
    UniqSpec(s);
  }

  /** Membership in every list that an application computes; all of them are canonical. */
  lemma SelectionSpec(c: Channel, addIn: seq<string>, ignoreIn: seq<string>, removeIn: seq<string>)
    ensures var a, pendingAdd, pendingRemove :=
              Selection(c, addIn, ignoreIn, removeIn), Normalize(c.detected), Normalize(c.removed);
            && Canonical(a.add) && Canonical(a.ignore) && Canonical(a.remove) && Canonical(a.next)
            && Canonical(a.remaining) && Canonical(a.remainingRemove)
            && Subsequence(a.remaining, pendingAdd) && Subsequence(a.remainingRemove, pendingRemove)
            && Subsequence(a.next, Merge(Local(c), a.add))
            && (forall x :: x in a.add <==> x in Normalize(addIn) && x in pendingAdd)
            && (forall x :: x in a.ignore <==> x in Normalize(ignoreIn) && x in pendingAdd)
            && (forall x :: x in a.remove <==> x in Normalize(removeIn) && x in pendingRemove && x !in a.add)
            && (forall x :: x in a.next <==> x in a.add || (x in Local(c) && x !in a.remove))
            && (forall x :: x in a.remaining <==> x in pendingAdd && x !in a.add && x !in a.ignore)
            && (forall x :: x in a.remainingRemove <==> x in pendingRemove && x !in a.remove)
  {
    hide Normalize, Intersect, Subtract, Merge, ApplySelected, Subsequence, GetModels, Trimmed;
    var a := Selection(c, addIn, ignoreIn, removeIn);
    var pendingAdd, pendingRemove := Normalize(c.detected), Normalize(c.removed);
    NormalizeSpec(c.detected);
    NormalizeSpec(c.removed);
    NormalizeSpec(GetModels(c.models));
    NormalizeFixed(pendingAdd);
    NormalizeFixed(pendingRemove);
    NormalizeFixed(Local(c));
    IntersectSpec(addIn, pendingAdd);
    IntersectSpec(ignoreIn, pendingAdd);
    IntersectSpec(removeIn, pendingRemove);
    NormalizeFixed(a.add);
    NormalizeFixed(Intersect(removeIn, pendingRemove));
    SubtractSpec(Intersect(removeIn, pendingRemove), a.add);
    NormalizeFixed(a.remove);
    ApplySelectedSpec(Local(c), a.add, a.remove);
    NormalizeClean(a.add + a.ignore);
    SubtractSpec(pendingAdd, a.add + a.ignore);
    SubtractSpec(pendingRemove, a.remove);
  }

  /** The ignore rules after an application: the selected names join them, the added ones leave. */
  lemma IgnoredAfter(c: Channel, addIn: seq<string>, ignoreIn: seq<string>, removeIn: seq<string>, now: int)
    ensures var a, after := Selection(c, addIn, ignoreIn, removeIn), Apply(c, addIn, ignoreIn, removeIn, now);
            && Canonical(after.ignored) && Subsequence(after.ignored, Merge(c.ignored, a.ignore))
            && (forall x :: x in after.ignored <==> (x in Normalize(c.ignored) || x in a.ignore) && x !in a.add)
  {
    hide Normalize, Subtract, Merge, ApplySelected, Subsequence, GetModels, Trimmed, Selection;
    var a := Selection(c, addIn, ignoreIn, removeIn);
    SelectionSpec(c, addIn, ignoreIn, removeIn);
    NormalizeFixed(a.ignore);
    NormalizeFixed(a.add);
    MergeSpec(c.ignored, a.ignore);
    NormalizeFixed(Merge(c.ignored, a.ignore));
    SubtractSpec(Merge(c.ignored, a.ignore), a.add);
    if a.add == [] {
      SubtractNothing(Merge(c.ignored, a.ignore));
    }
  }

  lemma SubtractNothing(s: seq<string>)
    requires Canonical(s)
    ensures Subsequence(s, s)
  {
    hide Normalize, Canonical, Subsequence;
    assert Normalize([]) == [] by {
      NormalizeNothing();
    }
    NormalizeFixed(s);
    FilterAll(s, x => x !in Normalize([]));
    SubtractSpec(s, []);
  }

  /** Local names have no commas, so they survive being stored as text. */
  lemma LocalPieces(c: Channel, x: string)
    ensures x in Local(c) <==> exists y :: y in Local(c) && Piece(x, y)
    ensures forall y :: y in Local(c) ==> (Piece(x, y) <==> x == y)
  {
    hide Normalize, GetModels, Piece;
    NormalizeSpec(GetModels(c.models));
    LocalCommaFree(c.models);
    forall y | y in Local(c)
      ensures Piece(x, y) <==> x == y
    {
      PlainPiece(x, y);
    }
  }

  /** The models read back after an application: the local ones that were not removed and the pieces of
      the added ones. */
  lemma LocalAfter(c: Channel, addIn: seq<string>, ignoreIn: seq<string>, removeIn: seq<string>, now: int, x: string)
    ensures var a := Selection(c, addIn, ignoreIn, removeIn);
            x in Local(Apply(c, addIn, ignoreIn, removeIn, now))
            <==> (x in Local(c) && x !in a.remove) || exists y :: y in a.add && Piece(x, y)
  {
    hide Normalize, GetModels, Selection, Join, Subtract, Merge, Piece;
    var a := Selection(c, addIn, ignoreIn, removeIn);
    SelectionSpec(c, addIn, ignoreIn, removeIn);
    LocalPieces(c, x);
    if a.next != Local(c) {
      ReadBack(a.next, x);
    }
  }

  /** The stored models are the computed list, in its order, exactly when no added name has a comma. */
  lemma StoredExactly(c: Channel, addIn: seq<string>, ignoreIn: seq<string>, removeIn: seq<string>, now: int)
    ensures var a := Selection(c, addIn, ignoreIn, removeIn);
            Local(Apply(c, addIn, ignoreIn, removeIn, now)) == a.next <==> CommaFree(a.add)
  {
    hide Normalize, GetModels, Selection, Join, Subtract, Merge;
    var a, after := Selection(c, addIn, ignoreIn, removeIn), Apply(c, addIn, ignoreIn, removeIn, now);
    SelectionSpec(c, addIn, ignoreIn, removeIn);
    LocalCommaFree(c.models);
    LocalCommaFree(after.models);
    if CommaFree(a.add) {
      LocalOfJoin(a.next);
    }
  }

  // ----- convergence -----

  lemma HiddenDepends(a: seq<string>, b: seq<string>, name: string, matches: (string, string) -> bool)
    requires forall x :: x in a ==> x in b
    ensures Hidden(a, name, matches) ==> Hidden(b, name, matches)
  {
    hide RuleHides;
    if Hidden(a, name, matches) {
      var i :| 0 <= i < |a| && RuleHides(a[i], name, matches);
      assert a[i] in b;
      var j :| 0 <= j < |b| && b[j] == a[i];
    }
  }

  lemma EmptyList(s: seq<string>)
    ensures s == [] <==> forall x :: x !in s
  {
    if s != [] {
      assert s[0] in s;
    }
  }

  /** An upstream name that only ignore rules keep from being offered. */
  ghost predicate HeldBack(c: Channel, w: World, x: string) {
    && x in Normalize(w.upstream) && x !in Local(c) && x !in w.mapping.Values
    && Hidden(Normalize(c.ignored), x, w.matches)
  }

  /** Every name held back stays hidden when the names about to be added leave the ignore list. */
  ghost predicate RulesSurvive(c: Channel, w: World) {
    forall x :: HeldBack(c, w, x) ==> Hidden(Minus(Normalize(c.ignored), c.detected), x, w.matches)
  }

  ghost function ApplyAll(c: Channel, now: int): Channel {
    Apply(c, c.detected, [], c.removed, now)
  }

  /** Nothing is pending for `c` in `w`. */
  ghost predicate Settled(c: Channel, w: World) {
    PendingAdd(w, GetModels(c.models), c.ignored) == [] && PendingRemove(w, GetModels(c.models)) == []
  }

  /** Membership facts of applying everything that was freshly detected. */
  lemma ApplyAllFacts(c: Channel, w: World, now: int)
    requires Fresh(c, w)
    ensures var a, after := Selection(c, c.detected, [], c.removed), ApplyAll(c, now);
            && (forall x :: x in a.add <==> x in c.detected)
            && (forall x :: x in a.remove <==> x in c.removed)
            && Normalize(after.ignored) == after.ignored
            && (forall x :: x in after.ignored <==> x in Normalize(c.ignored) && x !in c.detected)
            && (forall x :: x in c.detected <==>
                  x in Normalize(w.upstream) && x !in Local(c) && x !in w.mapping.Values
                  && !Hidden(Normalize(c.ignored), x, w.matches))
            && (forall x :: x in c.removed <==> x in Local(c) && x !in w.mapping.Keys && x !in Normalize(w.upstream))
  {
    hide Normalize, Selection, Apply, PendingAdd, PendingRemove, Hidden, GetModels, Canonical, Subsequence;
    PendingAddSpec(w, GetModels(c.models), c.ignored);
    PendingRemoveSpec(w, GetModels(c.models));
    NormalizeFixed(c.detected);
    NormalizeFixed(c.removed);
    assert Normalize([]) == [] by {
      NormalizeNothing();
    }
    SelectionSpec(c, c.detected, [], c.removed);
    IgnoredAfter(c, c.detected, [], c.removed, now);
    NormalizeFixed(ApplyAll(c, now).ignored);
  }

  lemma NormalizeNothing()
    ensures Normalize([]) == []
  {
  }

  /** `x` is a piece of one of the names. */
  ghost predicate PieceOfSome(x: string, names: seq<string>) {
    exists y :: y in names && Piece(x, y)
  }

  /** Detecting again what is pending after everything was applied, name by name, commas or not. */
  lemma RedetectAfterApplyAll(c: Channel, w: World, now: int, x: string)
    requires Fresh(c, w)
    ensures var after := ApplyAll(c, now);
            && (x in PendingAdd(w, GetModels(after.models), after.ignored) <==>
                  && (x in c.detected || HeldBack(c, w, x)) && !PieceOfSome(x, c.detected)
                  && !Hidden(Minus(Normalize(c.ignored), c.detected), x, w.matches))
            && (x in PendingRemove(w, GetModels(after.models)) <==>
                  PieceOfSome(x, c.detected) && x !in w.mapping.Keys && x !in Normalize(w.upstream))
  {
    hide Normalize, Selection, Apply, PendingAdd, PendingRemove, Hidden, GetModels, Canonical, Subsequence, Filter,
      Fresh, Piece;
    var after := ApplyAll(c, now);
    var rules := Minus(Normalize(c.ignored), c.detected);
    ApplyAllFacts(c, w, now);
    LocalAfter(c, c.detected, [], c.removed, now, x);
    PendingAddSpec(w, GetModels(after.models), after.ignored);
    PendingRemoveSpec(w, GetModels(after.models));
    FilterMembers(Normalize(c.ignored), x => x !in c.detected);
    HiddenDepends(rules, after.ignored, x, w.matches);
    HiddenDepends(after.ignored, rules, x, w.matches);
    HiddenDepends(rules, Normalize(c.ignored), x, w.matches);
  }

  /** Pieces have no commas; canonical names without commas are their own only pieces. */
  lemma PiecesOf(names: seq<string>, x: string)
    requires Canonical(names)
    ensures PieceOfSome(x, names) ==> ',' !in x
    ensures CommaFree(names) ==> (PieceOfSome(x, names) <==> x in names)
  {
    hide Piece, Trimmed;
    forall y | y in names && Piece(x, y)
      ensures ',' !in x
    {
      PieceCommaFree(x, y);
    }
    if CommaFree(names) {
      forall y | y in names
        ensures Piece(x, y) <==> x == y
      {
        PlainPiece(x, y);
      }
    }
  }

  lemma PieceCommaFree(x: string, name: string)
    requires Piece(x, name)
    ensures ',' !in x
  {
    var parts := Split(name, ',');
    var i :| 0 <= i < |parts| && Trim(parts[i]) == x;
    SplitParts(name, ',');
    TrimSpec(parts[i]);
  }

  /** Detect, apply everything, detect again with the same upstream and redirects: nothing is pending
      exactly when no detected name contains a comma and no ignore rule in use is itself a detected name. */
  lemma ApplyAllConverges(c: Channel, w: World, now: int)
    requires Fresh(c, w)
    ensures Settled(ApplyAll(c, now), w) <==> CommaFree(c.detected) && RulesSurvive(c, w)
  {
    hide Normalize, Apply, PendingAdd, PendingRemove, Hidden, GetModels, HeldBack, Fresh, PieceOfSome, Canonical;
    var after := ApplyAll(c, now);
    var again, gone := PendingAdd(w, GetModels(after.models), after.ignored), PendingRemove(w, GetModels(after.models));
    ApplyAllFacts(c, w, now);
    DetectedCanonical(c, w);
    EmptyList(again);
    EmptyList(gone);
    var rules := Minus(Normalize(c.ignored), c.detected);
    forall x
      ensures x in again <==> (x in c.detected || HeldBack(c, w, x)) && !PieceOfSome(x, c.detected)
                              && !Hidden(rules, x, w.matches)
      ensures x in gone <==> PieceOfSome(x, c.detected) && x !in w.mapping.Keys && x !in Normalize(w.upstream)
      ensures PieceOfSome(x, c.detected) ==> ',' !in x
      ensures CommaFree(c.detected) ==> (PieceOfSome(x, c.detected) <==> x in c.detected)
      ensures HeldBack(c, w, x) ==> x !in c.detected
      ensures x in c.detected ==> !Hidden(rules, x, w.matches)
    {
      RedetectAfterApplyAll(c, w, now, x);
      PiecesOf(c.detected, x);
      OfferedIsNotHeld(c, w, x);
    }
  }

  lemma DetectedCanonical(c: Channel, w: World)
    requires Fresh(c, w)
    ensures Canonical(c.detected)
  {
    hide PendingAdd, Canonical;
    PendingAddSpec(w, GetModels(c.models), c.ignored);
  }

  lemma OfferedIsNotHeld(c: Channel, w: World, x: string)
    requires Fresh(c, w)
    ensures HeldBack(c, w, x) ==> x !in c.detected
    ensures x in c.detected ==> !Hidden(Minus(Normalize(c.ignored), c.detected), x, w.matches)
  {
    hide Normalize, PendingAdd, Hidden, GetModels, Canonical, Filter;
    PendingAddSpec(w, GetModels(c.models), c.ignored);
    FilterMembers(Normalize(c.ignored), x => x !in c.detected);
    HiddenDepends(Minus(Normalize(c.ignored), c.detected), Normalize(c.ignored), x, w.matches);
  }

  /** In particular plain names, without comma and without the pattern prefix, always converge. */
  lemma PlainNamesConverge(c: Channel, w: World, now: int)
    requires Fresh(c, w) && CommaFree(c.detected)
    requires forall x :: x in c.detected ==> !(REGEX_PREFIX <= x)
    ensures Settled(ApplyAll(c, now), w)
  {
    hide Apply, PendingAdd, PendingRemove, GetModels, Fresh, Normalize, Settled;
    ApplyAllFacts(c, w, now);
    forall x | x in Normalize(c.ignored)
      ensures x !in c.detected
    {
      if !(REGEX_PREFIX <= x) {
        LiteralRuleHides(Normalize(c.ignored), x, w.matches);
      }
    }
    FilterAll(Normalize(c.ignored), x => x !in c.detected);
    ApplyAllConverges(c, w, now);
  }

  /** A rule that is no pattern hides its own name. */
  lemma LiteralRuleHides(rules: seq<string>, x: string, matches: (string, string) -> bool)
    requires x in rules && !(REGEX_PREFIX <= x)
    ensures Hidden(rules, x, matches)
  {
    var i :| 0 <= i < |rules| && rules[i] == x;
    assert RuleHides(rules[i], x, matches);
  }

  // ----- what becomes of each pending name -----

  /** `y` is a detected name that the caller asks to add. */
  ghost predicate Chosen(c: Channel, addIn: seq<string>, y: string) {
    y in c.detected && y in Normalize(addIn)
  }

  /** For any selection, what becomes of each freshly detected addition: local if it is a piece of an added
      name, which for a name without comma means itself; pending still exactly when not selected at all;
      ignored otherwise, add beating ignore. */
  lemma AdditionOutcome(c: Channel, w: World, addIn: seq<string>, ignoreIn: seq<string>, removeIn: seq<string>,
                        now: int, x: string)
    requires Fresh(c, w) && x in c.detected
    ensures var after := Apply(c, addIn, ignoreIn, removeIn, now);
            && (x in Local(after) <==> exists y :: Chosen(c, addIn, y) && Piece(x, y))
            && (x in after.detected <==> x !in Normalize(addIn) && x !in Normalize(ignoreIn))
            && (x in after.ignored <==>
                  x !in Normalize(addIn) && (x in Normalize(ignoreIn) || x in Normalize(c.ignored)))
            && (x in Normalize(c.ignored) ==> REGEX_PREFIX <= x)
            && Subsequence(after.detected, c.detected) && after.lastCheck == now
  {
    hide Normalize, Selection, PendingAdd, PendingRemove, GetModels, Canonical, Subsequence, Merge, Subtract,
      Join, Piece;
    PendingAddSpec(w, GetModels(c.models), c.ignored);
    NormalizeFixed(c.detected);
    SelectionSpec(c, addIn, ignoreIn, removeIn);
    IgnoredAfter(c, addIn, ignoreIn, removeIn, now);
    LocalAfter(c, addIn, ignoreIn, removeIn, now, x);
    if x in Normalize(c.ignored) && !(REGEX_PREFIX <= x) {
      LiteralRuleHides(Normalize(c.ignored), x, w.matches);
    }
  }

  /** Every detected name becomes local just if the caller asked to add it, exactly when no name asked for
      has a comma. */
  lemma AdditionsExact(c: Channel, w: World, addIn: seq<string>, ignoreIn: seq<string>, removeIn: seq<string>, now: int)
    requires Fresh(c, w)
    ensures var after := Apply(c, addIn, ignoreIn, removeIn, now);
            (forall x :: x in c.detected ==> (x in Local(after) <==> x in Normalize(addIn)))
            <==> (forall y :: Chosen(c, addIn, y) ==> ',' !in y)
  {
    hide Normalize, PendingAdd, PendingRemove, GetModels, Canonical, Apply, Fresh, Piece;
    var after := Apply(c, addIn, ignoreIn, removeIn, now);
    DetectedCanonical(c, w);
    LocalCommaFree(after.models);
    if forall y :: Chosen(c, addIn, y) ==> ',' !in y {
      forall x | x in c.detected
        ensures x in Local(after) <==> x in Normalize(addIn)
      {
        AdditionOutcome(c, w, addIn, ignoreIn, removeIn, now, x);
        forall y | Chosen(c, addIn, y)
          ensures Piece(x, y) <==> x == y
        {
          CanonicalName(c.detected, y);
          PlainPiece(x, y);
        }
        assert x in Normalize(addIn) ==> Chosen(c, addIn, x);
      }
    }
    forall y | Chosen(c, addIn, y) && ',' in y
      ensures y !in Local(after)
    {
    }
  }

  lemma CanonicalName(names: seq<string>, y: string)
    requires Canonical(names) && y in names
    ensures y != [] && Trimmed(y)
  {
  }

  /** Each freshly detected removal goes exactly when selected, unless a piece of an added name brings it back,
      and otherwise remains, pending and local; a redirect alias is never removed. */
  lemma RemovalOutcome(c: Channel, w: World, addIn: seq<string>, ignoreIn: seq<string>, removeIn: seq<string>,
                       now: int, x: string)
    requires Fresh(c, w) && x in Local(c)
    ensures var after := Apply(c, addIn, ignoreIn, removeIn, now);
            && (x in Local(after) <==>
                  !(x in c.removed && x in Normalize(removeIn)) || exists y :: Chosen(c, addIn, y) && Piece(x, y))
            && (x in after.removed <==> x in c.removed && x !in Normalize(removeIn))
            && (x in w.mapping.Keys ==> x in Local(after))
            && Subsequence(after.removed, c.removed)
  {
    hide Normalize, Selection, PendingAdd, PendingRemove, GetModels, Canonical, Subsequence, Merge, Subtract,
      Join, Piece;
    PendingAddSpec(w, GetModels(c.models), c.ignored);
    PendingRemoveSpec(w, GetModels(c.models));
    NormalizeFixed(c.detected);
    NormalizeFixed(c.removed);
    SelectionSpec(c, addIn, ignoreIn, removeIn);
    LocalAfter(c, addIn, ignoreIn, removeIn, now, x);
  }

  // ----- where convergence fails -----

  lemma Singleton(s: seq<string>, x: string)
    requires Distinct(s) && forall y :: y in s <==> y == x
    ensures s == [x]
  {
    assert x in s;
    assert s[0] in s;
    assert s == [s[0]] + s[1..];
    assert s[0] !in s[1..];
    forall y
      ensures y !in s[1..]
    {
      assert y in s[1..] ==> y in s;
    }
    EmptyList(s[1..]);
  }

  /** A channel without models, for which upstream offers just `x`. */
  lemma OneName(w: World, c: Channel, x: string)
    requires x != [] && Trimmed(x)
    requires w.upstream == [x] && w.mapping == map[] && c.models == [] && c.ignored == []
    requires c.detected == [x] && c.removed == []
    ensures Fresh(c, w)
  {
    assert Canonical([x]);
    NormalizeFixed([x]);
    NormalizeNothing();
    hide Normalize, Trimmed, Subsequence, PendingAdd, PendingRemove, Hidden;
    OneRule(x, x, w.matches);
    PendingAddSpec(w, [], []);
    PendingRemoveSpec(w, []);
    EmptyList(PendingRemove(w, []));
    Singleton(PendingAdd(w, [], []), x);
  }

  /** A concrete failure: an upstream name with a comma is offered for ever. */
  lemma CommaExample(now: int)
    ensures var w := World(["a,b"], map[], (p, n) => false);
            var c := Channel("", [], ["a,b"], [], 0);
            Fresh(c, w) && !Settled(ApplyAll(c, now), w)
  {
    var x := "a,b";
    var w, c := World([x], map[], (p, n) => false), Channel("", [], [x], [], 0);
    assert x[1] == ',';
    assert ',' in x && x in c.detected;
    hide Fresh, Settled, ApplyAll;
    OneName(w, c, x);
    ApplyAllConverges(c, w, now);
  }

  /** A concrete failure: adding a model that is named like an ignore pattern in use drops the pattern,
      and what it hid is offered next. */
  lemma PatternExample(now: int)
    ensures var w := World(["regex:^b", "b"], map[], (p, n) => n == "b");
            var c := Channel("", ["regex:^b"], ["regex:^b"], [], 0);
            Fresh(c, w) && CommaFree(c.detected) && !Settled(ApplyAll(c, now), w)
  {
    hide Fresh, Settled, ApplyAll, RulesSurvive, Trim, CommaFree;
    var r, y := "regex:^b", "b";
    var w, c := World([r, y], map[], (p, n) => n == "b"), Channel("", [r], [r], [], 0);
    assert |r| == 8 && |y| == 1 && REGEX_PREFIX <= r && r != y;
    assert !IsSpace(r[0]) && !IsSpace(r[7]) && !IsSpace(y[0]);
    PatternHidesOther(w, c, r, y);
    NoCommaInPattern();
    ApplyAllConverges(c, w, now);
  }

  lemma NoCommaInPattern()
    ensures CommaFree(["regex:^b"])
  {
  }

  lemma PatternHidesOther(w: World, c: Channel, r: string, y: string)
    requires Trimmed(r) && Trimmed(y) && r != [] && y != [] && r != y && REGEX_PREFIX <= r
    requires w.matches(Trim(r[|REGEX_PREFIX|..]), y) && !w.matches(Trim(r[|REGEX_PREFIX|..]), r)
    requires w.upstream == [r, y] && w.mapping == map[] && c.models == [] && c.ignored == [r]
    requires c.detected == [r] && c.removed == []
    ensures Fresh(c, w) && !RulesSurvive(c, w)
  {
    hide Normalize, Trimmed, Trim, Subsequence, PendingAdd, PendingRemove, Hidden, Filter, Distinct;
    TwoNames(r, y);
    OneRule(r, y, w.matches);
    OneRule(r, r, w.matches);
    OfferedOnly(w, r, y);
    FilterNone([r], x => x !in [r]);
    assert HeldBack(c, w, y);
  }

  lemma TwoNames(r: string, y: string)
    requires Trimmed(r) && Trimmed(y) && r != [] && y != [] && r != y
    ensures Normalize([]) == [] && Normalize([r]) == [r] && Normalize([r, y]) == [r, y]
  {
    assert Canonical([r]) && Canonical([r, y]);
    NormalizeFixed([r]);
    NormalizeFixed([r, y]);
    NormalizeNothing();
  }

  lemma OfferedOnly(w: World, r: string, y: string)
    requires Normalize([]) == [] && Normalize([r]) == [r] && Normalize([r, y]) == [r, y]
    requires w.upstream == [r, y] && w.mapping == map[]
    requires Hidden([r], y, w.matches) && !Hidden([r], r, w.matches)
    ensures PendingAdd(w, [], [r]) == [r] && PendingRemove(w, []) == []
  {
    hide Normalize, Trimmed, Subsequence, PendingAdd, PendingRemove, Hidden;
    PendingAddSpec(w, [], [r]);
    PendingRemoveSpec(w, []);
    EmptyList(PendingRemove(w, []));
    Singleton(PendingAdd(w, [], [r]), r);
  }

  lemma OneRule(r: string, name: string, matches: (string, string) -> bool)
    ensures Hidden([r], name, matches) <==> RuleHides(r, name, matches)
    ensures !Hidden([], name, matches)
  {
    assert [r][0] == r;
  }

  // ----- automatic synchronisation -----

  /** The auto-sync branch of `checkAndPersistChannelUpstreamModelUpdates`: additions are adopted at once,
      removals are only recorded. */
  ghost function AutoSync(c: Channel, w: World, now: int): Channel {
    var add := PendingAdd(w, GetModels(c.models), c.ignored);
    var merged := Merge(Local(c), add);
    Channel(if add != [] && |merged| > |Local(c)| then Join(merged, ',') else c.models, c.ignored,
            [], PendingRemove(w, GetModels(c.models)), now)
  }

  /** Detected names are new, so adopting them grows the list by exactly their number. */
  lemma AdoptedCount(w: World, local: seq<string>, ignored: seq<string>)
    ensures var add, origin := PendingAdd(w, local, ignored), Normalize(local);
            |Merge(origin, add)| == |origin| + |add|
  {
    hide Normalize, PendingAdd, Filter;
    var add, origin := PendingAdd(w, local, ignored), Normalize(local);
    PendingAddSpec(w, local, ignored);
    NormalizeSpec(local);
    NormalizeFixed(origin);
    NormalizeFixed(add);
    FilterAll(add, x => x !in origin);
  }

  /** Auto-sync keeps every local name and adds the pieces of the adopted ones. */
  lemma LocalAfterSync(c: Channel, w: World, now: int, x: string)
    ensures var add := PendingAdd(w, GetModels(c.models), c.ignored);
            x in Local(AutoSync(c, w, now)) <==> x in Local(c) || PieceOfSome(x, add)
  {
    var add, local := PendingAdd(w, GetModels(c.models), c.ignored), Local(c);
    var merged := Merge(local, add);
    hide Normalize, PendingAdd, PendingRemove, Subsequence, GetModels, Hidden, Join, Merge, Piece;
    PendingAddSpec(w, GetModels(c.models), c.ignored);
    NormalizeSpec(GetModels(c.models));
    NormalizeFixed(local);
    NormalizeFixed(add);
    MergeSpec(local, add);
    EmptyList(add);
    LocalPieces(c, x);
    ReadBack(merged, x);
    if add != [] {
      assert |merged| > |local| by {
        assert add[0] in add;
      }
    }
  }

  /** After auto-sync nothing is left to add exactly when no adopted name has a comma; local names stay; and
      detecting again finds the recorded removals and the pieces that upstream does not offer. */
  lemma AutoSyncConverges(c: Channel, w: World, now: int)
    ensures var after, add := AutoSync(c, w, now), PendingAdd(w, GetModels(c.models), c.ignored);
            && (PendingAdd(w, GetModels(after.models), after.ignored) == [] <==> CommaFree(add))
            && (forall x :: x in Local(c) ==> x in Local(after))
            && after.detected == [] && after.ignored == c.ignored && after.lastCheck == now
            && (forall x :: x in PendingRemove(w, GetModels(after.models)) <==>
                  x in after.removed
                  || (PieceOfSome(x, add) && x !in w.mapping.Keys && x !in Normalize(w.upstream)))
            && (CommaFree(add) ==> forall x :: x in PendingRemove(w, GetModels(after.models)) <==> x in after.removed)
  {
    var add, after := PendingAdd(w, GetModels(c.models), c.ignored), AutoSync(c, w, now);
    var again := PendingAdd(w, GetModels(after.models), after.ignored);
    hide Normalize, PendingAdd, PendingRemove, Subsequence, GetModels, Hidden, Join, Merge, PieceOfSome, Canonical;
    PendingAddSpec(w, GetModels(c.models), c.ignored);
    PendingAddSpec(w, GetModels(after.models), after.ignored);
    PendingRemoveSpec(w, GetModels(after.models));
    PendingRemoveSpec(w, GetModels(c.models));
    EmptyList(again);
    forall x
      ensures x in Local(after) <==> x in Local(c) || PieceOfSome(x, add)
      ensures PieceOfSome(x, add) ==> ',' !in x
      ensures CommaFree(add) ==> (PieceOfSome(x, add) <==> x in add)
    {
      LocalAfterSync(c, w, now, x);
      PiecesOf(add, x);
    }
  }
}
