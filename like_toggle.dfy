/** The toggle at the heart of `POST /api/recommendations/like`: the list of
    recommendation ids a user has liked loses every occurrence of the id when
    it holds it (`filter`), and gains the id at the end otherwise (spread and
    append). Membership is decided by `includes`. */
module LikeToggle {

  /** No id occurs twice. */
  predicate NoDuplicates(s: seq<string>) {
    forall i, j :: 0 <= i < j < |s| ==> s[i] != s[j]
  }

  /** `likes.filter(x => x !== id)`. */
  function RemoveAll(likes: seq<string>, id: string): (r: seq<string>)
    ensures id !in r
    ensures forall x :: x != id ==> (x in r <==> x in likes)
    ensures |r| == |likes| - multiset(likes)[id]
  {
    if likes == [] then []
    else
      assert likes == [likes[0]] + likes[1..];
      (if likes[0] == id then [] else [likes[0]]) + RemoveAll(likes[1..], id)
  }

  /** The updated list of liked ids. */
  function Toggle(likes: seq<string>, id: string): (r: seq<string>)
    ensures (id in r) <==> (id !in likes)
    ensures forall x :: x != id ==> (x in r <==> x in likes)
  {
    if id in likes then RemoveAll(likes, id) else likes + [id]
  }

  /** Removing an id that is not there changes nothing. */
  lemma {:induction false} RemoveAllAbsent(likes: seq<string>, id: string)
    requires id !in likes
    ensures RemoveAll(likes, id) == likes
  {
    if likes != [] {
      assert likes == [likes[0]] + likes[1..];
      assert likes[0] != id;
      RemoveAllAbsent(likes[1..], id);
    }
  }

  /** Removing distributes over concatenation. */
  lemma {:induction false} RemoveAllAppend(a: seq<string>, b: seq<string>, id: string)
    ensures RemoveAll(a + b, id) == RemoveAll(a, id) + RemoveAll(b, id)
  {
    if a == [] {
      assert a + b == b;
    } else {
      assert (a + b)[0] == a[0];
      assert (a + b)[1..] == a[1..] + b;
      RemoveAllAppend(a[1..], b, id);
    }
  }

  lemma RemoveAllSingle(id: string)
    ensures RemoveAll([id], id) == []
  {
    assert [id][1..] == [];
  }

  /** Removing keeps a list free of duplicates. */
  lemma {:induction false} RemoveAllNoDuplicates(likes: seq<string>, id: string)
    requires NoDuplicates(likes)
    ensures NoDuplicates(RemoveAll(likes, id))
  {
    if likes != [] {
      RemoveAllNoDuplicates(likes[1..], id);
      var tail := RemoveAll(likes[1..], id);
      assert likes[0] !in likes[1..] by {
        forall j | 0 <= j < |likes[1..]| ensures likes[1..][j] != likes[0] {
          assert likes[1..][j] == likes[j + 1];
        }
      }
      assert likes[0] !in tail;
    }
  }

  /** In a list without duplicates an id that is present occurs exactly once. */
  lemma {:induction false} OccursOnce(likes: seq<string>, id: string)
    requires NoDuplicates(likes) && id in likes
    ensures multiset(likes)[id] == 1
  {
    assert likes == [likes[0]] + likes[1..];
    assert NoDuplicates(likes[1..]) by {
      forall i, j | 0 <= i < j < |likes[1..]| ensures likes[1..][i] != likes[1..][j] {
        assert likes[1..][i] == likes[i + 1] && likes[1..][j] == likes[j + 1];
      }
    }
    if likes[0] == id {
      assert id !in likes[1..] by {
        forall j | 0 <= j < |likes[1..]| ensures likes[1..][j] != id {
          assert likes[1..][j] == likes[j + 1];
        }
      }
    } else {
      OccursOnce(likes[1..], id);
    }
  }

  /** The ids other than `id` keep their relative order: with `id` taken out,
      the old and the new list are the same sequence. */
  lemma {:induction false} ToggleKeepsOthersInOrder(likes: seq<string>, id: string)
    ensures RemoveAll(Toggle(likes, id), id) == RemoveAll(likes, id)
  {
    if id in likes {
      var r := RemoveAll(likes, id);
      assert Toggle(likes, id) == r;
      RemoveAllAbsent(r, id);
    } else {
      assert Toggle(likes, id) == likes + [id];
      RemoveAllAppend(likes, [id], id);
      RemoveAllSingle(id);
    }
  }

  /** Liking adds one entry. Unliking removes one entry from a list without
      duplicates, and every occurrence in general. */
  lemma {:induction false} ToggleLength(likes: seq<string>, id: string)
    ensures id !in likes ==> |Toggle(likes, id)| == |likes| + 1
    ensures id in likes ==> |Toggle(likes, id)| == |likes| - multiset(likes)[id]
    ensures id in likes && NoDuplicates(likes) ==> |Toggle(likes, id)| == |likes| - 1
  {
    if id in likes && NoDuplicates(likes) {
      OccursOnce(likes, id);
    }
  }

  /** A list without duplicates stays without duplicates. */
  lemma {:induction false} ToggleNoDuplicates(likes: seq<string>, id: string)
    requires NoDuplicates(likes)
    ensures NoDuplicates(Toggle(likes, id))
  {
    if id in likes {
      RemoveAllNoDuplicates(likes, id);
    } else {
      var r := likes + [id];
      forall i, j | 0 <= i < j < |r| ensures r[i] != r[j] {
        if j == |likes| {
          assert r[i] == likes[i];
        }
      }
    }
  }

  /** Toggling twice gives back the same set of liked ids; when the id was not
      liked, it gives back the very same list; and on a list without
      duplicates it gives back a list of the same length. */
  lemma {:induction false} ToggleTwice(likes: seq<string>, id: string)
    ensures forall x :: x in Toggle(Toggle(likes, id), id) <==> x in likes
    ensures id !in likes ==> Toggle(Toggle(likes, id), id) == likes
    ensures NoDuplicates(likes) ==> |Toggle(Toggle(likes, id), id)| == |likes|
  {
    var once := Toggle(likes, id);
    if id !in likes {
      assert once == likes + [id];
      RemoveAllAppend(likes, [id], id);
      RemoveAllSingle(id);
      RemoveAllAbsent(likes, id);
    }
    if NoDuplicates(likes) {
      ToggleLength(likes, id);
      ToggleNoDuplicates(likes, id);
      ToggleLength(once, id);
    }
  }
}
