/** Records shared by the quiz backend: the documents of its collections and the replies of its routes. */
module Records {

  datatype Option<+T> = None | Some(value: T)

  /** JavaScript truthiness of an optional string field of a request body: absent and "" are falsy. */
  predicate Truthy(s: Option<string>) {
    s.Some? && s.value != ""
  }

  function Min(a: nat, b: nat): nat {
    if a < b then a else b
  }

  /** A character of a 24-digit hexadecimal `ObjectId` string. */
  predicate IsHexDigit(c: char) {
    '0' <= c <= '9' || 'a' <= c <= 'f' || 'A' <= c <= 'F'
  }

  /** Whether `new ObjectId(id.toString())` accepts the id: 24 hexadecimal digits. */
  predicate IsObjectId(id: string) {
    |id| == 24 && forall k :: 0 <= k < |id| ==> IsHexDigit(id[k])
  }

  /**
    The id an `ObjectId` built from `id` renders and matches: its hexadecimal letters in lower
    case, so that an id written in upper case names the same document.
  */
  function LowerHex(id: string): (r: string)
    ensures |r| == |id|
    ensures forall k :: 0 <= k < |id| ==> r[k] == (if 'A' <= id[k] <= 'F' then (id[k] as int + 32) as char else id[k])
  {
    if id == [] then "" else [if 'A' <= id[0] <= 'F' then (id[0] as int + 32) as char else id[0]] + LowerHex(id[1..])
  }

  /** `ids.map(id => new ObjectId(id.toString()))`: every id as the store holds it. */
  function ObjectIdsOf(ids: seq<string>): (r: seq<string>)
    ensures |r| == |ids|
    ensures forall k :: 0 <= k < |ids| ==> r[k] == LowerHex(ids[k])
  {
    if ids == [] then [] else [LowerHex(ids[0])] + ObjectIdsOf(ids[1..])
  }

  /** A reply that carries only an HTTP status and a message. */
  datatype Reply = Reply(status: int, message: string)

  /** Who a document of the `quizcodes` collection belongs to. */
  datatype CodeScope =
    | Global                                               // written by the hourly rotation
    | Personal(userId: string, username: string, isUsed: bool)  // written by /quiz/generate-code

  /** A document of the `quizcodes` collection; times are milliseconds since the epoch. */
  datatype QuizCode = QuizCode(quizCode: string, expiresAt: int, createdAt: int, scope: CodeScope)

  /** A document of the `users` collection (only the fields the quiz routes read). */
  datatype User = User(id: string, username: string, email: string)

  /** The first user whose id is `id` (a `findOne` by `_id`). */
  function FindUser(users: seq<User>, id: string): (r: Option<User>)
    ensures r.Some? ==> r.value in users && r.value.id == id
    ensures r.None? <==> forall u :: u in users ==> u.id != id
  {
    if users == [] then None
    else if users[0].id == id then Some(users[0])
    else FindUser(users[1..], id)
  }

  /** One option of a stored question. */
  datatype AnswerOption = AnswerOption(value: string, isCorrect: bool)

  /** A document of the `questions` collection. */
  datatype Question = Question(id: string, text: string, tags: string,
                               options: seq<AnswerOption>, explanation: Option<string>)

  /** `options.map(o => o.value)` */
  function Values(options: seq<AnswerOption>): (r: seq<string>)
    ensures |r| == |options|
  {
    if options == [] then [] else [options[0].value] + Values(options[1..])
  }

  /** The value at each position is the value of the option there. */
  lemma {:induction false} ValuesAt(options: seq<AnswerOption>)
    ensures forall k :: 0 <= k < |options| ==> Values(options)[k] == options[k].value
  {
    if options != [] {
      ValuesAt(options[1..]);
      assert forall k :: 1 <= k < |options| ==> Values(options)[k] == Values(options[1..])[k - 1];
    }
  }

  /** `options.filter(o => o.isCorrect).map(o => o.value)` */
  function CorrectValues(options: seq<AnswerOption>): (r: seq<string>)
    ensures |r| <= |options|
  {
    if options == [] then []
    else (if options[0].isCorrect then [options[0].value] else []) + CorrectValues(options[1..])
  }

  /** The number of options whose `isCorrect` flag is set. */
  function CountCorrect(options: seq<AnswerOption>): (n: nat)
    ensures n <= |options|
  {
    if options == [] then 0
    else (if options[0].isCorrect then 1 else 0) + CountCorrect(options[1..])
  }

  /** The correct values are as many as the options flagged correct, and each is the value of a correct option. */
  lemma {:induction false} CorrectValuesCount(options: seq<AnswerOption>)
    ensures |CorrectValues(options)| == CountCorrect(options)
    ensures forall v :: v in CorrectValues(options) <==> exists o :: o in options && o.isCorrect && o.value == v
  {
    if options != [] {
      CorrectValuesCount(options[1..]);
      assert options == [options[0]] + options[1..];
      forall v ensures v in CorrectValues(options) <==> exists o :: o in options && o.isCorrect && o.value == v {
        if v in CorrectValues(options) && !(options[0].isCorrect && options[0].value == v) {
          var o :| o in options[1..] && o.isCorrect && o.value == v;
          assert o in options;
        }
        if exists o :: o in options && o.isCorrect && o.value == v {
          var o :| o in options && o.isCorrect && o.value == v;
          if o != options[0] {
            assert o in options[1..];
          }
        }
      }
    }
  }

  /** Counting the correct options distributes over concatenation. */
  lemma {:induction false} CountCorrectAppend(a: seq<AnswerOption>, b: seq<AnswerOption>)
    ensures CountCorrect(a + b) == CountCorrect(a) + CountCorrect(b)
  {
    if a != [] {
      assert (a + b)[1..] == a[1..] + b;
      CountCorrectAppend(a[1..], b);
    } else {
      assert a + b == b;
    }
  }

  /** Counting the correct options does not depend on their order. */
  lemma {:induction false} CountCorrectPermutation(a: seq<AnswerOption>, b: seq<AnswerOption>)
    requires multiset(a) == multiset(b)
    ensures CountCorrect(a) == CountCorrect(b)
    decreases |a|
  {
    if a == [] {
      assert |b| == |multiset(b)| == 0;
    } else {
      var k := MatchFirst(a, b);
      CountCorrectPermutation(a[1..], b[..k] + b[k+1..]);
      CountCorrectRemoveAt(b, k);
      CountCorrectRemoveAt(a, 0);
      assert a[..0] + a[1..] == a[1..];
    }
  }

  /**
    For two permutations, a position of `b` holding the first element of `a`; without both,
    what is left is again a pair of permutations.
  */
  lemma {:induction false} MatchFirst<T>(a: seq<T>, b: seq<T>) returns (k: nat)
    requires a != [] && multiset(a) == multiset(b)
    ensures k < |b| && b[k] == a[0]
    ensures multiset(a[1..]) == multiset(b[..k] + b[k+1..])
  {
    SharedElement(a, b, a[0]);
    k :| 0 <= k < |b| && b[k] == a[0];
    RemoveFirstMultiset(a);
    RemoveAtMultiset(b, k);
  }

  lemma SharedElement<T>(a: seq<T>, b: seq<T>, x: T)
    requires multiset(a) == multiset(b) && x in a
    ensures x in b
  {
    assert x in multiset(a);
    assert x in multiset(b);
  }

  lemma RemoveFirstMultiset<T>(a: seq<T>)
    requires a != []
    ensures multiset(a[1..]) == multiset(a) - multiset{a[0]}
  {
    assert a == [a[0]] + a[1..];
  }

  /** Removing the option at `k` removes its contribution to the count. */
  lemma {:induction false} CountCorrectRemoveAt(b: seq<AnswerOption>, k: nat)
    requires k < |b|
    ensures CountCorrect(b) == CountCorrect(b[..k] + b[k+1..]) + (if b[k].isCorrect then 1 else 0)
  {
    assert b == b[..k] + [b[k]] + b[k+1..];
    CountCorrectAppend(b[..k] + [b[k]], b[k+1..]);
    CountCorrectAppend(b[..k], [b[k]]);
    CountCorrectAppend(b[..k], b[k+1..]);
    assert CountCorrect([b[k]]) == (if b[k].isCorrect then 1 else 0) + CountCorrect([b[k]][1..]);
  }

  /** Taking the values distributes over concatenation. */
  lemma {:induction false} ValuesAppend(a: seq<AnswerOption>, b: seq<AnswerOption>)
    ensures Values(a + b) == Values(a) + Values(b)
  {
    if a != [] {
      assert (a + b)[1..] == a[1..] + b;
      ValuesAppend(a[1..], b);
    } else {
      assert a + b == b;
    }
  }

  /** Removing the option at `k` removes its value from the multiset of values. */
  lemma {:induction false} ValuesRemoveAt(b: seq<AnswerOption>, k: nat)
    requires k < |b|
    ensures multiset(Values(b)) == multiset(Values(b[..k] + b[k+1..])) + multiset{b[k].value}
  {
    assert b == b[..k] + [b[k]] + b[k+1..];
    ValuesAppend(b[..k] + [b[k]], b[k+1..]);
    ValuesAppend(b[..k], [b[k]]);
    ValuesAppend(b[..k], b[k+1..]);
  }

  /** Removing the option at `k` removes it from the multiset of options. */
  lemma {:induction false} RemoveAtMultiset<T>(b: seq<T>, k: nat)
    requires k < |b|
    ensures multiset(b[..k] + b[k+1..]) == multiset(b) - multiset{b[k]}
  {
    assert b == b[..k] + [b[k]] + b[k+1..];
  }

  /** Values of a permutation of the options are a permutation of their values. */
  lemma {:induction false} ValuesPermutation(a: seq<AnswerOption>, b: seq<AnswerOption>)
    requires multiset(a) == multiset(b)
    ensures multiset(Values(a)) == multiset(Values(b))
    decreases |a|
  {
    if a == [] {
      assert |b| == |multiset(b)| == 0;
    } else {
      var k := MatchFirst(a, b);
      ValuesPermutation(a[1..], b[..k] + b[k+1..]);
      ValuesRemoveAt(b, k);
      ValuesRemoveAt(a, 0);
      assert a[..0] + a[1..] == a[1..];
    }
  }

  /** The first question of `pool` whose id is `id` (a `findOne` by `_id`). */
  function FindQuestion(pool: seq<Question>, id: string): (r: Option<Question>)
    ensures r.Some? ==> r.value in pool && r.value.id == id
    ensures r.None? <==> forall q :: q in pool ==> q.id != id
  {
    if pool == [] then None
    else if pool[0].id == id then Some(pool[0])
    else FindQuestion(pool[1..], id)
  }

  /** `find({ _id: { $in: ids } })`: the stored questions whose id is listed, in store order, each once. */
  function FindByIds(pool: seq<Question>, ids: seq<string>): (r: seq<Question>)
    ensures |r| <= |pool|
    ensures forall q :: q in r <==> q in pool && q.id in ids
  {
    if pool == [] then []
    else (if pool[0].id in ids then [pool[0]] else []) + FindByIds(pool[1..], ids)
  }
}
