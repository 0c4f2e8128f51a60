/** The task record, the pure lookups and views over the ordered task list,
    and the well-formedness the list's operations keep. */
module Tasks {
  import opened Text

  datatype Option<T> = None | Some(value: T)

  /** One entry of the task list; every field is a string, as in the stored
      document. */
  datatype Task = Task(
    id: string,
    description: string,
    status: string,
    createdAt: string,
    updatedAt: string)

  /** The statuses the status dialog offers, in the order it lists them. */
  const StatusOptions: seq<string> := ["todo", "in-progress", "done"]

  /** `new_task`: a fresh record for `description`. The identifier and the
      timestamp are supplied by the caller, who draws them from a UUID
      generator and the clock. The record starts in the first offered
      status, and its creation and update times are the same instant. */
  function NewTask(id: string, description: string, now: string): (t: Task)
    ensures t.id == id && t.description == description
    ensures t.status == StatusOptions[0] == "todo"
    ensures t.createdAt == now && t.updatedAt == t.createdAt
  {
    Task(id, description, "todo", now, now)
  }

  /** The choice the read-only status box holds when "Set" is pressed: it
      starts on the task's current status; `picked` is the option the user
      chose from the list, if any. Nothing else can be typed into it. */
  function StatusChoice(current: string, picked: Option<nat>): (r: string)
    requires picked.Some? ==> picked.value < |StatusOptions|
    ensures r in StatusOptions || r == current
    ensures picked.Some? ==> r in StatusOptions
    ensures current in StatusOptions ==> r in StatusOptions
  {
    match picked
    case None => current
    case Some(i) => StatusOptions[i]
  }

  /** The generator lookup `next((t for t in tasks if t["id"] == id), None)`:
      the position of the first task carrying `id`, or `None` when no task
      does. */
  function FindFirst(s: seq<Task>, id: string): (r: Option<nat>)
    ensures r.Some? ==> r.value < |s| && s[r.value].id == id
    ensures r.Some? ==> forall j :: 0 <= j < r.value ==> s[j].id != id
    ensures r.None? <==> forall j :: 0 <= j < |s| ==> s[j].id != id
  {
    if s == [] then None
    else if s[0].id == id then Some(0)
    else match FindFirst(s[1..], id)
      case None => None
      case Some(i) => Some(i + 1)
  }

  /** `a` is `b` with some elements left out, the rest in their order. */
  ghost predicate Subsequence(a: seq<Task>, b: seq<Task>)
    decreases |b|
  {
    if a == [] then true
    else if b == [] then false
    else (a[0] == b[0] && Subsequence(a[1..], b[1..])) || Subsequence(a, b[1..])
  }

  lemma {:induction false} SubsequenceReflexive(s: seq<Task>)
    ensures Subsequence(s, s)
  {
    if s != [] {
      SubsequenceReflexive(s[1..]);
    }
  }

  /** The list comprehension `[t for t in s if p(t)]`: the tasks of `s` that
      satisfy `p`, each as often as in `s`, none other, in their order in
      `s`. */
  function Keep(s: seq<Task>, p: Task -> bool): (r: seq<Task>)
    ensures |r| <= |s|
    ensures Subsequence(r, s)
    ensures forall t :: multiset(r)[t] == if p(t) then multiset(s)[t] else 0
    ensures forall t :: t in r <==> t in s && p(t)
  {
    if s == [] then []
    else
      assert s == [s[0]] + s[1..];
      if p(s[0]) then [s[0]] + Keep(s[1..], p) else Keep(s[1..], p)
  }

  /** When every task satisfies `p`, keeping those that do keeps the list. */
  lemma {:induction false} KeepAll(s: seq<Task>, p: Task -> bool)
    requires forall i :: 0 <= i < |s| ==> p(s[i])
    ensures Keep(s, p) == s
  {
    if s != [] {
      assert p(s[0]);
      assert forall i :: 0 <= i < |s| - 1 ==> s[1..][i] == s[i + 1];
      KeepAll(s[1..], p);
      calc {
        Keep(s, p);
        [s[0]] + Keep(s[1..], p);
        [s[0]] + s[1..];
        s;
      }
    }
  }

  /** A subsequence holds each task at most as often as the whole. */
  lemma {:induction false} SubsequenceMultiset(a: seq<Task>, b: seq<Task>)
    requires Subsequence(a, b)
    ensures multiset(a) <= multiset(b)
    decreases |b|
  {
    if a != [] {
      assert b == [b[0]] + b[1..];
      if a[0] == b[0] && Subsequence(a[1..], b[1..]) {
        SubsequenceMultiset(a[1..], b[1..]);
        assert a == [a[0]] + a[1..];
      } else {
        SubsequenceMultiset(a, b[1..]);
      }
    }
  }

  /** `Keep`'s contract pins its result down: the only subsequence of `s`
      holding each task that satisfies `p` as often as `s` does, and no
      other task, is `Keep(s, p)`. */
  lemma {:induction false} KeepUnique(s: seq<Task>, p: Task -> bool, r: seq<Task>)
    requires Subsequence(r, s)
    requires forall t :: multiset(r)[t] == if p(t) then multiset(s)[t] else 0
    ensures r == Keep(s, p)
    decreases |s|
  {
    if s == [] {
      assert r == [];
    } else {
      var x, s' := s[0], s[1..];
      assert s == [x] + s';
      if p(x) {
        assert multiset(r)[x] == multiset(s')[x] + 1;
        assert r != [];
        if r[0] == x && Subsequence(r[1..], s') {
          assert r == [x] + r[1..];
          KeepUnique(s', p, r[1..]);
        } else {
          SubsequenceMultiset(r, s');
          assert false;
        }
      } else {
        assert x !in r;
        assert r == [] || r[0] != x;
        KeepUnique(s', p, r);
      }
    }
  }

  /** No two tasks share an identifier. */
  ghost predicate UniqueIds(s: seq<Task>) {
    forall i, j :: 0 <= i < j < |s| ==> s[i].id != s[j].id
  }

  predicate HasId(s: seq<Task>, id: string) {
    exists i :: 0 <= i < |s| && s[i].id == id
  }

  /** A task as the operations store it: a non-empty description that
      neither starts nor ends with whitespace (so `Strip` leaves it as it
      is), and one of the offered statuses. */
  ghost predicate WellFormedTask(t: Task) {
    var d := t.description;
    d != [] && !IsSpace(d[0]) && !IsSpace(d[|d| - 1]) && t.status in StatusOptions
  }

  /** The invariant of the task collection: unique identifiers, and every
      task well formed. A loaded document need not satisfy it; the
      operations keep it once it holds. */
  ghost predicate WellFormed(s: seq<Task>) {
    UniqueIds(s) && forall i :: 0 <= i < |s| ==> WellFormedTask(s[i])
  }

  lemma {:induction false} SubsequenceMembers(a: seq<Task>, b: seq<Task>)
    requires Subsequence(a, b)
    ensures forall t :: t in a ==> t in b
    decreases |b|
  {
    if a != [] {
      if a[0] == b[0] && Subsequence(a[1..], b[1..]) {
        SubsequenceMembers(a[1..], b[1..]);
        assert a == [a[0]] + a[1..];
      } else {
        SubsequenceMembers(a, b[1..]);
      }
    }
  }

  /** Leaving tasks out cannot make two identifiers equal. */
  lemma {:induction false} SubsequenceUniqueIds(a: seq<Task>, b: seq<Task>)
    requires Subsequence(a, b) && UniqueIds(b)
    ensures UniqueIds(a)
    decreases |b|
  {
    if a != [] {
      assert UniqueIds(b[1..]) by {
        forall i, j | 0 <= i < j < |b| - 1 ensures b[1..][i].id != b[1..][j].id {
          assert b[1..][i] == b[i + 1] && b[1..][j] == b[j + 1];
        }
      }
      if a[0] == b[0] && Subsequence(a[1..], b[1..]) {
        SubsequenceUniqueIds(a[1..], b[1..]);
        SubsequenceMembers(a[1..], b[1..]);
        forall i, j | 0 <= i < j < |a| ensures a[i].id != a[j].id {
          assert a[j] == a[1..][j - 1];
          if i == 0 {
            assert a[j] in b[1..];
            var k :| 0 <= k < |b[1..]| && b[1..][k] == a[j];
            assert b[k + 1] == a[j];
          } else {
            assert a[i] == a[1..][i - 1];
          }
        }
      } else {
        SubsequenceUniqueIds(a, b[1..]);
      }
    }
  }

  /** Filtering a well-formed list gives a well-formed list. */
  lemma KeepWellFormed(s: seq<Task>, p: Task -> bool)
    requires WellFormed(s)
    ensures WellFormed(Keep(s, p))
  {
    var r := Keep(s, p);
    SubsequenceUniqueIds(r, s);
    forall i | 0 <= i < |r| ensures WellFormedTask(r[i]) {
      assert r[i] in s;
    }
  }

  /** Appending a task whose identifier is not yet in use keeps the
      identifiers unique. */
  lemma AppendUniqueIds(s: seq<Task>, t: Task)
    requires UniqueIds(s) && !HasId(s, t.id)
    ensures UniqueIds(s + [t])
  {
    var s' := s + [t];
    forall i, j | 0 <= i < j < |s'| ensures s'[i].id != s'[j].id {
      assert s'[i] == s[i];
    }
  }

  /** Appending a record built by `NewTask` from a stripped, non-empty input
      with an identifier not yet in use keeps the list well formed. */
  lemma AppendWellFormed(s: seq<Task>, input: string, id: string, now: string)
    requires WellFormed(s) && !HasId(s, id) && Strip(input) != []
    ensures WellFormed(s + [NewTask(id, Strip(input), now)])
  {
    var s' := s + [NewTask(id, Strip(input), now)];
    AppendUniqueIds(s, NewTask(id, Strip(input), now));
    forall i | 0 <= i < |s'| ensures WellFormedTask(s'[i]) {
      if i < |s| {
        assert s'[i] == s[i];
      }
    }
  }

  /** Replacing one task by a well-formed record with the same identifier
      keeps the list well formed. */
  lemma ReplaceWellFormed(s: seq<Task>, i: nat, t: Task)
    requires WellFormed(s) && i < |s| && t.id == s[i].id && WellFormedTask(t)
    ensures WellFormed(s[i := t])
  {
    var s' := s[i := t];
    forall j, k | 0 <= j < k < |s'| ensures s'[j].id != s'[k].id {
      assert s'[j].id == s[j].id && s'[k].id == s[k].id;
    }
  }
}
