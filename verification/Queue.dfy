/** The withdrawal queue as a sum: the shares burned into a set of tickets. */
module Queue {
  import opened Machine

  /** Shares burned into the open tickets. */
  ghost function SharesQueued(tickets: map<TicketKey, Ticket>): nat {
    if tickets == map[] then 0
    else
      var key :| key in tickets;
      tickets[key].sharesBurned + SharesQueued(tickets - {key})
  }

  /** Shares burned into a batch of loaded tickets. */
  ghost function SharesOf(tickets: seq<Ticket>): nat {
    if tickets == [] then 0
    else SharesOf(tickets[..|tickets| - 1]) + tickets[|tickets| - 1].sharesBurned
  }

  lemma {:induction false} QueuedWithout(tickets: map<TicketKey, Ticket>, key: TicketKey)
    requires key in tickets
    ensures SharesQueued(tickets) == tickets[key].sharesBurned + SharesQueued(tickets - {key})
    decreases |tickets|
  {
    var first :| first in tickets && SharesQueued(tickets)
        == tickets[first].sharesBurned + SharesQueued(tickets - {first});
    if first != key {
      QueuedWithout(tickets - {first}, key);
      QueuedWithout(tickets - {key}, first);
      assert tickets - {first} - {key} == tickets - {key} - {first};
    }
  }

  lemma QueuedWith(tickets: map<TicketKey, Ticket>, key: TicketKey, ticket: Ticket)
    requires key !in tickets
    ensures SharesQueued(tickets[key := ticket]) == ticket.sharesBurned + SharesQueued(tickets)
  {
    QueuedWithout(tickets[key := ticket], key);
    assert tickets[key := ticket] - {key} == tickets;
  }

  /** A batch can be loaded exactly when its keys are distinct, open tickets holding shares. */
  ghost predicate Loadable(tickets: map<TicketKey, Ticket>, keys: seq<TicketKey>) {
    && (forall i :: 0 <= i < |keys| ==> keys[i] in tickets && tickets[keys[i]].sharesBurned != 0)
    && (forall i, j :: 0 <= i < j < |keys| ==> keys[i] != keys[j])
  }

  lemma {:induction false} LoadIsExact(tickets: map<TicketKey, Ticket>, keys: seq<TicketKey>)
    ensures LoadTickets(tickets, keys).Ok? <==> Loadable(tickets, keys)
    ensures LoadTickets(tickets, keys).Ok? ==>
              forall i :: 0 <= i < |keys| ==> LoadTickets(tickets, keys).value[i] == tickets[keys[i]]
  {
    if keys == [] {
    } else {
      var front := keys[..|keys| - 1];
      var last := keys[|keys| - 1];
      LoadIsExact(tickets, front);
      if Loadable(tickets, keys) {
        assert forall i :: 0 <= i < |front| ==> front[i] == keys[i];
      }
      if LoadTickets(tickets, keys).Ok? {
        assert forall i :: 0 <= i < |front| ==> keys[i] == front[i] && front[i] in front;
      }
    }
  }

  /** Removing a loaded batch from the queue removes exactly its shares. */
  lemma {:induction false} QueuedWithoutBatch(tickets: map<TicketKey, Ticket>, keys: seq<TicketKey>)
    requires LoadTickets(tickets, keys).Ok?
    ensures SharesQueued(tickets)
            == SharesOf(LoadTickets(tickets, keys).value) + SharesQueued(tickets - (set k | k in keys))
  {
    if keys == [] {
      assert tickets - (set k | k in keys) == tickets;
    } else {
      var front := keys[..|keys| - 1];
      var last := keys[|keys| - 1];
      QueuedWithoutBatch(tickets, front);
      var loaded := LoadTickets(tickets, keys).value;
      assert loaded[..|loaded| - 1] == LoadTickets(tickets, front).value;
      var rest := tickets - (set k | k in front);
      assert last in rest && rest[last] == tickets[last];
      QueuedWithout(rest, last);
      assert (set k | k in keys) == (set k | k in front) + {last};
      assert rest - {last} == tickets - (set k | k in keys);
    }
  }
}
