/**
 * An already-parsed JSON value, standing for Qt's QJsonValue / QJsonObject /
 * QJsonArray. Nothing here parses text: the editor only ever sees documents
 * after QJsonDocument has read them.
 *
 * An object is the sequence of its members in iteration order. A QJsonObject
 * keeps its keys sorted, so `Put` inserts a new key at its sorted place.
 */
module Json {

  datatype Json =
    | Undefined               // what a lookup of a missing key or index yields
    | Null
    | Bool(b: bool)
    | Number(r: real)         // a QJsonValue number is a double
    | Str(s: string)
    | Array(elements: seq<Json>)
    | Object(members: seq<Member>)

  datatype Member = Member(key: string, value: Json)

  /** QJsonObject::contains. */
  predicate Contains(o: seq<Member>, k: string) {
    o != [] && (o[0].key == k || Contains(o[1..], k))
  }

  /** A key is contained exactly when some member carries it. */
  lemma {:induction false} ContainsIndex(o: seq<Member>, k: string)
    ensures Contains(o, k) <==> exists i :: 0 <= i < |o| && o[i].key == k
  {
    if o != [] {
      ContainsIndex(o[1..], k);
      if exists i :: 0 <= i < |o| && o[i].key == k {
        var i :| 0 <= i < |o| && o[i].key == k;
        if i > 0 {
          assert o[1..][i - 1].key == k;
        }
      }
      if exists i :: 0 <= i < |o[1..]| && o[1..][i].key == k {
        var i :| 0 <= i < |o[1..]| && o[1..][i].key == k;
        assert o[i + 1].key == k;
      }
    }
  }

  /** QJsonObject::value (and operator[] on an existing key): the member's value, or Undefined. */
  function Value(o: seq<Member>, k: string): Json {
    if o == [] then Undefined
    else if o[0].key == k then o[0].value
    else Value(o[1..], k)
  }

  /** A missing key reads as Undefined; a present one reads as the value of a member carrying it. */
  lemma {:induction false} ValueSpec(o: seq<Member>, k: string)
    ensures !Contains(o, k) ==> Value(o, k) == Undefined
    ensures Contains(o, k) ==> exists i :: 0 <= i < |o| && o[i] == Member(k, Value(o, k))
  {
    if o != [] && o[0].key != k {
      ValueSpec(o[1..], k);
      if Contains(o[1..], k) {
        var i :| 0 <= i < |o[1..]| && o[1..][i] == Member(k, Value(o, k));
        assert o[i + 1] == Member(k, Value(o, k));
      }
    } else if o != [] {
      assert o[0] == Member(k, Value(o, k));
    }
  }

  /** QJsonValue::toObject: the members of an object, otherwise the empty object. */
  function ToObject(v: Json): seq<Member> {
    if v.Object? then v.members else []
  }

  /** QJsonValue::toArray: the elements of an array, otherwise the empty array. */
  function ToArray(v: Json): seq<Json> {
    if v.Array? then v.elements else []
  }

  /** QJsonValue::toInt: an integral number, otherwise the default 0 (also for a non-integral number). */
  function ToInt(v: Json): int {
    if v.Number? && v.r.Floor as real == v.r then v.r.Floor else 0
  }

  /** QJsonValue::toString: the string, otherwise the empty string. */
  function ToString(v: Json): string {
    if v.Str? then v.s else ""
  }

  /** QJsonArray::at: the element, or Undefined outside the array. */
  function At(a: seq<Json>, i: int): Json {
    if 0 <= i < |a| then a[i] else Undefined
  }

  /**
   * The value read through the non-const QJsonObject::operator[]: a missing
   * key is inserted with a Null value first, so it reads as Null, never as
   * Undefined.
   */
  function SubscriptValue(o: seq<Member>, k: string): Json {
    if Contains(o, k) then Value(o, k) else Null
  }

  /** The object as the non-const QJsonObject::operator[] leaves it: with `k` present. */
  function SubscriptObject(o: seq<Member>, k: string): seq<Member> {
    if Contains(o, k) then o else Put(o, k, Null)
  }

  /**
   * operator[] reads the value the object holds once the key is inserted, and
   * the insertion touches no other key.
   */
  lemma SubscriptReads(o: seq<Member>, k: string, k': string)
    ensures SubscriptValue(o, k) == Value(SubscriptObject(o, k), k)
    ensures Contains(SubscriptObject(o, k), k)
    ensures k' != k ==> Value(SubscriptObject(o, k), k') == Value(o, k')
  {
    PutValue(o, k, Null, k);
    PutValue(o, k, Null, k');
  }

  /** Strict lexicographic order on keys. */
  predicate Less(a: string, b: string) {
    if a == [] then b != []
    else b != [] && (a[0] < b[0] || (a[0] == b[0] && Less(a[1..], b[1..])))
  }

  /** Keys strictly increasing: how a QJsonObject holds its members. */
  predicate Sorted(o: seq<Member>) {
    forall i, j :: 0 <= i < j < |o| ==> Less(o[i].key, o[j].key)
  }

  /**
   * QJsonObject::insert / operator[] assignment: replaces the value of an
   * existing key, otherwise inserts the member before the first larger key.
   */
  function Put(o: seq<Member>, k: string, v: Json): seq<Member> {
    if o == [] then [Member(k, v)]
    else if o[0].key == k then [Member(k, v)] + o[1..]
    else if Less(k, o[0].key) then [Member(k, v)] + o
    else [o[0]] + Put(o[1..], k, v)
  }

  /** Every member after a Put is the new one or an old one. */
  lemma {:induction false} PutMembers(o: seq<Member>, k: string, v: Json)
    ensures forall i :: 0 <= i < |Put(o, k, v)| ==> Put(o, k, v)[i] == Member(k, v) || Put(o, k, v)[i] in o
  {
    if o != [] && o[0].key != k && !Less(k, o[0].key) {
      PutMembers(o[1..], k, v);
      var r := Put(o, k, v);
      forall i | 0 <= i < |r| ensures r[i] == Member(k, v) || r[i] in o {
        if i > 0 {
          assert r[i] == Put(o[1..], k, v)[i - 1];
        }
      }
    }
  }

  /** After a Put the key is present with the new value, and every other key reads as before. */
  lemma {:induction false} PutValue(o: seq<Member>, k: string, v: Json, k': string)
    ensures Contains(Put(o, k, v), k') <==> k' == k || Contains(o, k')
    ensures Value(Put(o, k, v), k') == if k' == k then v else Value(o, k')
  {
    if o == [] {
    } else if o[0].key == k {
      var r := Put(o, k, v);
      assert r[1..] == o[1..];
    } else if Less(k, o[0].key) {
      var r := Put(o, k, v);
      assert r[1..] == o;
    } else {
      var r := Put(o, k, v);
      assert r[0] == o[0] && r[1..] == Put(o[1..], k, v);
      PutValue(o[1..], k, v, k');
    }
  }

  lemma {:induction false} LessIrreflexive(a: string)
    ensures !Less(a, a)
  {
    if a != [] {
      LessIrreflexive(a[1..]);
    }
  }

  lemma {:induction false} LessTransitive(a: string, b: string, c: string)
    requires Less(a, b) && Less(b, c)
    ensures Less(a, c)
  {
    if a != [] && a[0] == b[0] && b[0] == c[0] {
      LessTransitive(a[1..], b[1..], c[1..]);
    }
  }

  lemma {:induction false} LessTotal(a: string, b: string)
    requires a != b
    ensures Less(a, b) || Less(b, a)
  {
    if a != [] && b != [] && a[0] == b[0] {
      assert a == [a[0]] + a[1..] && b == [b[0]] + b[1..];
      LessTotal(a[1..], b[1..]);
    }
  }

  /** The keys of a sorted object are unique. */
  lemma SortedUnique(o: seq<Member>)
    requires Sorted(o)
    ensures forall i, j :: 0 <= i < j < |o| ==> o[i].key != o[j].key
  {
    forall i, j | 0 <= i < j < |o| ensures o[i].key != o[j].key {
      assert Less(o[i].key, o[j].key);
      LessIrreflexive(o[i].key);
    }
  }

  /** Inserting keeps a QJsonObject's keys sorted and unique. */
  lemma {:induction false} PutSorted(o: seq<Member>, k: string, v: Json)
    requires Sorted(o)
    ensures Sorted(Put(o, k, v))
    ensures forall i, j :: 0 <= i < j < |Put(o, k, v)| ==> Put(o, k, v)[i].key != Put(o, k, v)[j].key
  {
    var r := Put(o, k, v);
    if o == [] {
    } else if o[0].key == k {
      forall i, j | 0 <= i < j < |r| ensures Less(r[i].key, r[j].key) {
        assert r[i].key == o[i].key && r[j].key == o[j].key;
      }
    } else if Less(k, o[0].key) {
      forall i, j | 0 <= i < j < |r| ensures Less(r[i].key, r[j].key) {
        if i == 0 {
          if j > 1 {
            LessTransitive(k, o[0].key, o[j - 1].key);
          }
        } else {
          assert r[i] == o[i - 1] && r[j] == o[j - 1];
        }
      }
    } else {
      LessTotal(k, o[0].key);
      assert Sorted(o[1..]);
      PutSorted(o[1..], k, v);
      PutMembers(o[1..], k, v);
      var t := Put(o[1..], k, v);
      forall j | 0 <= j < |t| ensures Less(o[0].key, t[j].key) {
        if t[j] != Member(k, v) {
          var m :| 0 <= m < |o[1..]| && o[1..][m] == t[j];
          assert o[m + 1] == t[j];
        }
      }
      ConsSorted(o[0], t);
      assert r == [o[0]] + t;
    }
    SortedUnique(r);
  }

  /** A member whose key precedes every key of a sorted object can be put in front of it. */
  lemma ConsSorted(m: Member, t: seq<Member>)
    requires Sorted(t) && forall j :: 0 <= j < |t| ==> Less(m.key, t[j].key)
    ensures Sorted([m] + t)
  {
    var r := [m] + t;
    forall i, j | 0 <= i < j < |r| ensures Less(r[i].key, r[j].key) {
      assert r[j] == t[j - 1];
      if i > 0 {
        assert r[i] == t[i - 1];
      }
    }
  }
}
