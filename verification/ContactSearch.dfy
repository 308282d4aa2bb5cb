/** `search_contacts`: the search that merges address books. */
module ContactSearch {
  import opened Text
  import opened Runs

  const MAX_CONTACT_LIMIT: nat := 100

  datatype Contact = Contact(href: string, vcard: string)

  datatype InvalidParams = InvalidParams

  function ValidatedLimit(limit: nat): Result<nat, InvalidParams> {
    if limit == 0 then Err(InvalidParams)
    else Ok(if limit < MAX_CONTACT_LIMIT then limit else MAX_CONTACT_LIMIT)
  }

  function Hrefs(contacts: seq<Contact>): set<string> {
    set c | c in contacts :: c.href
  }

  /** The first contact of every href, in order. */
  function Distinct(contacts: seq<Contact>): (d: seq<Contact>)
    ensures |d| <= |contacts|
    decreases |contacts|, 0
  {
    if contacts == [] then [] else AddDistinct(Before(contacts), Latest(contacts))
  }

  function AddDistinct(contacts: seq<Contact>, c: Contact): (d: seq<Contact>)
    ensures |d| <= |contacts| + 1
    decreases |contacts|, 1
  {
    if c.href in Hrefs(contacts) then Distinct(contacts) else Distinct(contacts) + [c]
  }

  function Flatten(books: seq<seq<Contact>>): seq<Contact> {
    if books == [] then [] else Flatten(books[..|books| - 1]) + books[|books| - 1]
  }

  lemma DistinctOneMore(contacts: seq<Contact>, c: Contact)
    ensures Distinct(contacts + [c]) == AddDistinct(contacts, c)
    ensures Hrefs(contacts + [c]) == Hrefs(contacts) + {c.href}
  {
    assert Before(contacts + [c]) == contacts;
    assert forall x :: x in contacts + [c] <==> x in contacts || x == c;
  }

  lemma {:induction false} DistinctPrefix(a: seq<Contact>, b: seq<Contact>)
    ensures Distinct(a) <= Distinct(a + b)
    decreases |b|
  {
    if b == [] {
      assert a + b == a;
    } else {
      assert (a + b)[..|a + b| - 1] == a + b[..|b| - 1];
      DistinctPrefix(a, b[..|b| - 1]);
    }
  }

  lemma {:induction false} FlattenPrefix(books: seq<seq<Contact>>, k: nat)
    requires k <= |books|
    ensures Flatten(books[..k]) <= Flatten(books)
    decreases |books| - k
  {
    if k < |books| {
      assert books[..k + 1][..k] == books[..k];
      FlattenPrefix(books, k + 1);
    } else {
      assert books[..k] == books;
    }
  }

  /** The inner loop: one book's matches are merged until the limit is reached. */
  method MergeMatches(
    matches: seq<Contact>, limit: nat, contacts0: seq<Contact>, seen0: set<string>, ghost start: seq<Contact>)
    returns (contacts: seq<Contact>, seen: set<string>, ghost merged: nat)
    requires contacts0 == Distinct(start) && |contacts0| < limit && seen0 == Hrefs(start)
    ensures merged <= |matches| && (|contacts| < limit ==> merged == |matches|)
    ensures contacts == Distinct(start + matches[..merged]) && |contacts| <= limit
    ensures seen == Hrefs(start + matches[..merged])
  {
    contacts, seen, merged := contacts0, seen0, 0;
    assert start + matches[..0] == start;
    for i := 0 to |matches|
      invariant merged == i
      invariant contacts == Distinct(start + matches[..i]) && |contacts| < limit
      invariant seen == Hrefs(start + matches[..i])
    {
      var contact := matches[i];
      DistinctOneMore(start + matches[..i], contact);
      OneMoreMatch(start, matches, i);
      merged := i + 1;
      if contact.href !in seen {
        seen := seen + {contact.href};
        contacts := contacts + [contact];
      }
      if |contacts| >= limit {
        break;
      }
    }
  }

  /** A limit of zero is refused and one above 100 is cut to 100. The early exits lose nothing: the
      result is the first contacts, up to the limit, of the distinct ones of all address books. */
  method SearchContacts(books: seq<seq<Contact>>, requested: nat) returns (result: Result<seq<Contact>, InvalidParams>)
    ensures result.Err? <==> requested == 0
    ensures result.Ok? ==>
      var all, limit := Distinct(Flatten(books)), if requested < 100 then requested else 100;
      result.value == if |all| <= limit then all else all[..limit]
  {
    var validated := ValidatedLimit(requested);
    if validated.Err? {
      return Err(validated.error);
    }
    var limit := validated.value;
    var seen: set<string> := {};
    var contacts: seq<Contact> := [];
    for b := 0 to |books|
      invariant contacts == Distinct(Flatten(books[..b])) && |contacts| < limit
      invariant seen == Hrefs(Flatten(books[..b]))
    {
      ghost var start, merged := Flatten(books[..b]), 0;
      contacts, seen, merged := MergeMatches(books[b], limit, contacts, seen, start);
      if |contacts| >= limit {
        PrefixOfAll(books, b, merged, start + books[b][..merged]);
        return Ok(contacts);
      }
      FlattenOneMore(books, b);
      assert books[b][..merged] == books[b];
    }
    assert books[..|books|] == books;
    return Ok(contacts);
  }

  lemma OneMoreMatch(start: seq<Contact>, matches: seq<Contact>, i: nat)
    requires i < |matches|
    ensures start + matches[..i] + [matches[i]] == start + matches[..i + 1]
  {
  }

  lemma FlattenOneMore(books: seq<seq<Contact>>, b: nat)
    requires b < |books|
    ensures Flatten(books[..b + 1]) == Flatten(books[..b]) + books[b]
  {
    assert books[..b + 1][..b] == books[..b];
  }

  /** Contacts come in the order of the address books, and within a book in its own. */
  lemma {:induction false} FlattenInOrder(book: seq<Contact>, books: seq<seq<Contact>>)
    ensures Flatten([]) == []
    ensures Flatten([book] + books) == book + Flatten(books)
  {
    var all := [book] + books;
    if books == [] {
      assert all[..0] == [] && Flatten(all) == Flatten([]) + book;
    } else {
      var front, last := books[..|books| - 1], books[|books| - 1];
      assert all[..|all| - 1] == [book] + front && all[|all| - 1] == last;
      FlattenInOrder(book, front);
    }
  }

  lemma PrefixOfAll(books: seq<seq<Contact>>, b: nat, i: nat, done: seq<Contact>)
    requires b < |books| && i <= |books[b]|
    requires done == Flatten(books[..b]) + books[b][..i]
    ensures var all := Distinct(Flatten(books));
      |Distinct(done)| <= |all| && all[..|Distinct(done)|] == Distinct(done)
  {
    FlattenOneMore(books, b);
    FlattenPrefix(books, b + 1);
    var upTo, all := Flatten(books[..b + 1]), Flatten(books);
    assert done + books[b][i..] == upTo;
    assert all == upTo + all[|upTo|..];
    DistinctPrefix(done, books[b][i..]);
    DistinctPrefix(upTo, all[|upTo|..]);
  }

  /** No href twice, and every href that was found is listed. */
  lemma {:induction false} DistinctIsComplete(contacts: seq<Contact>)
    ensures forall i, j :: 0 <= i < j < |Distinct(contacts)| ==>
      Distinct(contacts)[i].href != Distinct(contacts)[j].href
    ensures Hrefs(Distinct(contacts)) == Hrefs(contacts)
  {
    if contacts != [] {
      var front, last := Before(contacts), Latest(contacts);
      DistinctIsComplete(front);
      assert contacts == front + [last];
      DistinctOneMore(front, last);
      if last.href !in Hrefs(front) {
        var d := Distinct(front);
        assert forall x :: x in d + [last] <==> x in d || x == last;
        forall i | 0 <= i < |d| ensures d[i].href != last.href {
          assert d[i] in d && d[i].href in Hrefs(d);
        }
      }
    }
  }

  /** The first position of an href, or the length of the list. */
  function FirstWith(contacts: seq<Contact>, href: string): (i: nat)
    ensures i <= |contacts|
    ensures i < |contacts| ==> contacts[i].href == href
    ensures forall k :: 0 <= k < i ==> contacts[k].href != href
  {
    if contacts == [] || contacts[0].href == href then 0 else 1 + FirstWith(contacts[1..], href)
  }

  lemma FirstWithIs(contacts: seq<Contact>, href: string, i: nat)
    requires i < |contacts| && contacts[i].href == href
    requires forall k :: 0 <= k < i ==> contacts[k].href != href
    ensures FirstWith(contacts, href) == i
  {
  }

  lemma FirstWithMore(contacts: seq<Contact>, c: Contact, href: string)
    ensures href in Hrefs(contacts) ==> FirstWith(contacts, href) < |contacts|
    ensures href in Hrefs(contacts) ==> FirstWith(contacts + [c], href) == FirstWith(contacts, href)
    ensures href !in Hrefs(contacts) && c.href == href ==> FirstWith(contacts + [c], href) == |contacts|
  {
    var all := contacts + [c];
    if href in Hrefs(contacts) {
      var x :| x in contacts && x.href == href;
      var j :| 0 <= j < |contacts| && contacts[j] == x;
      FirstWithIs(all, href, FirstWith(contacts, href));
    } else if c.href == href {
      forall k | 0 <= k < |contacts| ensures all[k].href != href {
        assert contacts[k] in contacts && contacts[k].href in Hrefs(contacts);
      }
      FirstWithIs(all, href, |contacts|);
    }
  }

  /** The contact is the first of its href. */
  predicate IsFirst(contacts: seq<Contact>, c: Contact) {
    FirstWith(contacts, c.href) < |contacts| && contacts[FirstWith(contacts, c.href)] == c
  }

  lemma StaysFirst(front: seq<Contact>, last: Contact, c: Contact)
    requires IsFirst(front, c)
    ensures IsFirst(front + [last], c) && FirstWith(front + [last], c.href) == FirstWith(front, c.href)
  {
    assert c in front && c.href in Hrefs(front);
    FirstWithMore(front, last, c.href);
  }

  /** Of every href the first contact is listed, and the list keeps the order of those first contacts. */
  lemma {:induction false} DistinctKeepsFirst(contacts: seq<Contact>)
    ensures forall i :: 0 <= i < |Distinct(contacts)| ==> IsFirst(contacts, Distinct(contacts)[i])
    ensures forall i, j :: 0 <= i < j < |Distinct(contacts)| ==>
      FirstWith(contacts, Distinct(contacts)[i].href) < FirstWith(contacts, Distinct(contacts)[j].href)
  {
    if contacts != [] {
      var front, last := Before(contacts), Latest(contacts);
      assert contacts == front + [last];
      DistinctKeepsFirst(front);
      DistinctOneMore(front, last);
      var d := Distinct(front);
      forall i | 0 <= i < |d|
        ensures IsFirst(contacts, d[i]) && FirstWith(contacts, d[i].href) == FirstWith(front, d[i].href) < |front|
      {
        StaysFirst(front, last, d[i]);
      }
      if last.href !in Hrefs(front) {
        FirstWithMore(front, last, last.href);
      }
    }
  }
}
