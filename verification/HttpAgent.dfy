/** The connection pool of lib/http.js: Agent.

    Requests and sockets are numbered. A socket tells the agent when it is free, when it has closed,
    and when it is taken out of the pool. */
module HttpAgent {

  // A request that a socket was given
  datatype Handout = Handout(name: string, request: int, socket: nat)

  // The requests for a host and port that were given to sockets, in order
  function Given(handed: seq<Handout>, name: string): (r: seq<int>) {
    if handed == [] then []
    else
      var last := handed[|handed| - 1];
      Given(handed[..|handed| - 1], name) + if last.name == name then [last.request] else []
  }

  lemma GivenSnoc(handed: seq<Handout>, h: Handout)
    ensures forall name :: Given(handed + [h], name) == Given(handed, name) + if h.name == name then [h.request] else []
  {
    assert (handed + [h])[..|handed|] == handed;
  }

  function Listed<T>(lists: map<string, seq<T>>, name: string): (r: seq<T>) {
    if name in lists then lists[name] else []
  }

  function IndexOf(list: seq<nat>, s: nat): (i: int)
    ensures if s in list then 0 <= i < |list| && list[i] == s && s !in list[..i] else i == -1
  {
    if list == [] then -1
    else if list[0] == s then 0
    else
      var i := IndexOf(list[1..], s);
      if i < 0 then -1 else i + 1
  }

  // A list without a socket
  function Less(list: seq<nat>, s: nat): (r: seq<nat>) {
    var i := IndexOf(list, s);
    if i == -1 then list else list[..i] + list[i + 1..]
  }

  lemma LessOfDistinct(list: seq<nat>, s: nat)
    requires Distinct(list)
    ensures var r := Less(list, s);
      && Distinct(r) && s !in r && |r| == |list| - (if s in list then 1 else 0)
      && forall i :: 0 <= i < |r| ==> r[i] in list
  {
  }

  predicate Distinct(list: seq<nat>) {
    forall i, j :: 0 <= i < j < |list| ==> list[i] != list[j]
  }

  class Agent {
    const maxSockets: nat
    // The requests that wait, and the sockets of the pool, for each host and port
    var requests: map<string, seq<int>>
    var sockets: map<string, seq<nat>>
    // What came of it
    var handed: seq<Handout>
    var destroyed: set<nat>
    // What each socket was made for
    var home: seq<string>
    // Every request made
    ghost var asked: map<string, seq<int>>

    constructor (maxSockets: nat)
      requires maxSockets >= 1
      ensures Valid() && handed == [] && destroyed == {} && home == []
      ensures forall name :: Pool(name) == [] && Waiting(name) == [] && Asked(name) == []
      ensures this.maxSockets == maxSockets
    {
      this.maxSockets := maxSockets;
      requests, sockets, handed, destroyed, home, asked := map[], map[], [], {}, [], map[];
    }

    function Waiting(name: string): (r: seq<int>)
      reads this`requests
    {
      Listed(requests, name)
    }

    function Pool(name: string): (r: seq<nat>)
      reads this`sockets
    {
      Listed(sockets, name)
    }

    ghost function Asked(name: string): (r: seq<int>)
      reads this`asked
    {
      Listed(asked, name)
    }

    ghost predicate Valid()
      reads this
    {
      maxSockets >= 1 && Bounded() && Tidy() && Separate() && InTurn()
    }

    // No pool is over the limit, and none is under it while requests wait.
    ghost predicate BoundedAt(name: string)
      reads this`requests, this`sockets
    {
      |Pool(name)| <= maxSockets && (Waiting(name) != [] ==> |Pool(name)| == maxSockets)
    }

    ghost predicate Bounded()
      reads this`requests, this`sockets
    {
      forall name :: BoundedAt(name)
    }

    // No list is kept empty.
    ghost predicate Tidy()
      reads this`requests, this`sockets
    {
      (forall name <- requests :: requests[name] != []) && (forall name <- sockets :: sockets[name] != [])
    }

    // No socket is twice in a pool, or in that of another host and port.
    ghost predicate SeparateAt(name: string)
      reads this`sockets, this`home
    {
      Distinct(Pool(name)) && forall i :: 0 <= i < |Pool(name)| ==>
        Pool(name)[i] < |home| && home[Pool(name)[i]] == name
    }

    ghost predicate Separate()
      reads this`sockets, this`home
    {
      forall name :: SeparateAt(name)
    }

    // Every request that was made has been given to one socket, in the order they were made, or waits.
    ghost predicate InTurnAt(name: string)
      reads this`requests, this`handed, this`asked
    {
      Asked(name) == Given(handed, name) + Waiting(name)
    }

    ghost predicate InTurn()
      reads this`requests, this`handed, this`asked
    {
      forall name :: InTurnAt(name)
    }

    method CreateSocket(name: string) returns (s: nat)
      requires Separate()
      modifies this`sockets, this`home
      ensures Separate() && s == old(|home|) && home == old(home) + [name]
      ensures Pool(name) == old(Pool(name)) + [s] && forall n | n != name :: Pool(n) == old(Pool(n))
      ensures old(Tidy()) ==> Tidy()
    {
      s := |home|;
      home := home + [name];
      if name !in sockets {
        sockets := sockets[name := []];
      }
      sockets := sockets[name := sockets[name] + [s]];
      forall n ensures SeparateAt(n) {
        assert old(SeparateAt(n));
        var before := old(Pool(n));
        assert Pool(n) == if n == name then before + [s] else before;
      }
    }

    // Gives a request to a new socket while the pool is under its limit, and queues it otherwise.
    method AddRequest(req: int, name: string)
      requires Valid()
      modifies this`requests, this`sockets, this`home, this`handed, this`asked
      ensures Valid() && Asked(name) == old(Asked(name)) + [req]
      ensures forall n | n != name ::
        Asked(n) == old(Asked(n)) && Pool(n) == old(Pool(n)) && Waiting(n) == old(Waiting(n))
      ensures home == old(home + if |Pool(name)| < maxSockets then [name] else [])
      ensures if old(|Pool(name)|) < maxSockets
        then Pool(name) == old(Pool(name) + [|home|]) && handed == old(handed + [Handout(name, req, |home|)])
          && Waiting(name) == old(Waiting(name))
        else Pool(name) == old(Pool(name)) && handed == old(handed) && Waiting(name) == old(Waiting(name)) + [req]
    {
      hide Separate, Tidy, Given, Listed;
      assert BoundedAt(name);
      if |Pool(name)| < maxSockets {
        var s := CreateSocket(name);
        Hand(name, req, s);
      } else {
        Queue(name, Waiting(name) + [req]);
      }
      Ask(name, req);
      assert Bounded() by {
        hide InTurn;
        forall n ensures BoundedAt(n) {
          assert old(BoundedAt(n));
        }
      }
      assert InTurn() by {
        hide Bounded;
        forall n ensures InTurnAt(n) {
          assert old(InTurnAt(n));
        }
      }
      hide Bounded, InTurn;
    }

    // The requests that wait are now these.
    method Queue(name: string, list: seq<int>)
      modifies this`requests
      ensures Waiting(name) == list && forall n | n != name :: Waiting(n) == old(Waiting(n))
      ensures old(Tidy()) ==> Tidy()
    {
      requests := if |list| == 0 then requests - {name} else requests[name := list];
    }

    ghost method Ask(name: string, req: int)
      modifies this`asked
      ensures Asked(name) == old(Asked(name)) + [req] && forall n | n != name :: Asked(n) == old(Asked(n))
    {
      asked := asked[name := Asked(name) + [req]];
    }

    // A socket is given a request.
    method Hand(name: string, req: int, s: nat)
      modifies this`handed
      ensures handed == old(handed) + [Handout(name, req, s)]
      ensures Given(handed, name) == old(Given(handed, name)) + [req]
      ensures forall n | n != name :: Given(handed, n) == old(Given(handed, n))
    {
      GivenSnoc(handed, Handout(name, req, s));
      handed := handed + [Handout(name, req, s)];
    }

    // A socket of a pool is free: it is given the first request that waits, or done with.
    method Free(s: nat, name: string)
      requires Valid()
      modifies this`requests, this`handed, this`destroyed
      ensures Valid()
      ensures forall n | n != name :: Waiting(n) == old(Waiting(n))
      ensures if old(Waiting(name)) != []
        then handed == old(handed + [Handout(name, Waiting(name)[0], s)]) && Waiting(name) == old(Waiting(name)[1..])
          && destroyed == old(destroyed)
        else handed == old(handed) && Waiting(name) == [] && destroyed == old(destroyed) + {s}
    {
      hide Separate, Tidy, Given, Listed;
      assert BoundedAt(name) && InTurnAt(name);
      OnFree(s, name);
      assert Bounded() by {
        hide InTurn;
        forall n ensures BoundedAt(n) {
          assert old(BoundedAt(n));
        }
      }
      hide Bounded;
    }

    // What the agent does when one of its sockets is free.
    method OnFree(s: nat, name: string)
      requires InTurn()
      modifies this`requests, this`handed, this`destroyed
      ensures InTurn() && (old(Tidy()) ==> Tidy())
      ensures forall n | n != name :: Waiting(n) == old(Waiting(n))
      ensures if old(Waiting(name)) != []
        then handed == old(handed + [Handout(name, Waiting(name)[0], s)]) && Waiting(name) == old(Waiting(name)[1..])
          && destroyed == old(destroyed)
        else handed == old(handed) && Waiting(name) == [] && destroyed == old(destroyed) + {s}
    {
      hide Given, Listed, Tidy;
      if |Waiting(name)| > 0 {
        Hand(name, Waiting(name)[0], s);
        Queue(name, Waiting(name)[1..]);
      } else {
        destroyed := destroyed + {s};
      }
      forall n ensures InTurnAt(n) {
        assert old(InTurnAt(n));
      }
    }

    // A socket has closed, or is taken out of the pool. Requests that wait get a new one instead.
    // The limit holds afterwards if and only if the socket was in the pool or no request waits.
    method RemoveSocket(s: nat, name: string)
      requires Valid() && s < |home|
      modifies this`requests, this`sockets, this`home, this`handed, this`destroyed
      ensures destroyed == old(destroyed)
      ensures Tidy() && Separate() && InTurn()
      ensures Bounded() <==> old(s in Pool(name) || Waiting(name) == [])
      ensures home == old(home + if Waiting(name) == [] then [] else [name])
      ensures Pool(name) == old(Less(Pool(name), s) + if Waiting(name) == [] then [] else [|home|])
      ensures forall n | n != name :: Pool(n) == old(Pool(n)) && Waiting(n) == old(Waiting(n))
      ensures if old(Waiting(name)) == [] then handed == old(handed) && Waiting(name) == []
        else
          && handed == old(handed + [Handout(name, Waiting(name)[0], |home|)])
          && Waiting(name) == old(Waiting(name)[1..])
    {
      hide Separate, Tidy, Given, Listed, InTurn, Less;
      assert BoundedAt(name);
      Drop(s, name);
      if |Waiting(name)| > 0 {
        var replacement := CreateSocket(name);
        OnFree(replacement, name);
      }
      if old(s in Pool(name) || Waiting(name) == []) {
        forall n ensures BoundedAt(n) {
          assert old(BoundedAt(n));
        }
      } else {
        assert !BoundedAt(name);
      }
    }

    method Drop(s: nat, name: string)
      requires Separate()
      modifies this`sockets
      ensures Separate() && (old(Tidy()) ==> Tidy())
      ensures Pool(name) == Less(old(Pool(name)), s)
      ensures |Pool(name)| == old(|Pool(name)|) - (if s in old(Pool(name)) then 1 else 0)
      ensures forall n | n != name :: Pool(n) == old(Pool(n))
    {
      var list := Pool(name);
      var index := IndexOf(list, s);
      if index != -1 {
        list := list[..index] + list[index + 1..];
        sockets := if |list| == 0 then sockets - {name} else sockets[name := list];
      }
      assert old(SeparateAt(name));
      LessOfDistinct(old(Pool(name)), s);
      hide Less, Distinct, IndexOf;
      forall n ensures SeparateAt(n) {
        assert old(SeparateAt(n));
      }
    }
  }

  // A pool of one socket, with two requests that wait for it
  method Crowded(name: string) returns (agent: Agent)
    ensures fresh(agent) && agent.Valid() && agent.maxSockets == 1 && |agent.home| == 1
    ensures agent.Pool(name) == [0] && agent.Waiting(name) == [2, 3]
  {
    hide Agent.Valid, Agent.Separate, Agent.InTurn, Agent.Tidy, Agent.Bounded, Listed, Given;
    agent := new Agent(1);
    agent.AddRequest(1, name);
    agent.AddRequest(2, name);
    agent.AddRequest(3, name);
    assert agent.Pool(name) == [0] && agent.Waiting(name) == [2, 3];
  }

  // A run that takes a pool over its limit: a socket that is removed twice while requests wait, as
  // one is that closes and is then taken out as well.
  method RemovedTwice(name: string) returns (agent: Agent)
    ensures agent.maxSockets == 1 && agent.Pool(name) == [1, 2] && !agent.Bounded()
  {
    hide Listed, Given, Less, Agent.Separate, Agent.InTurn, Agent.Tidy, Agent.Bounded;
    agent := Crowded(name);
    LessOfOne(0);
    agent.RemoveSocket(0, name);
    assert agent.Pool(name) == [1] && agent.Waiting(name) == [3];
    LessOfOne(1);
    agent.RemoveSocket(0, name);
    assert agent.Pool(name) == [1, 2];
  }

  lemma LessOfOne(s: nat)
    ensures Less([s], 0) == if s == 0 then [] else [s]
  {
    assert [s][1..] == [] && IndexOf([], 0) == -1;
  }
}
