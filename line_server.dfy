/**
 * The line server (Server): port selection in main, the shared `clients` list of PrintWriters,
 * broadcast over a copy of that list, and handleClient from the first line read to the
 * `finally` block. Writers are known by identity; what a writer is handed is kept, line by
 * line, in `printed`.
 */
module LineServer {
  import opened Wrappers
  import opened Text
  import Handshake

  const DefaultPort: int := 8888

  /**
   * main: the first argument when there is one, else the PORT environment value when it is
   * set and not empty; a value Integer.parseInt refuses leaves the port at 8888.
   */
  method SelectPort(args: seq<string>, env: Option<string>) returns (port: int)
    ensures |args| > 0 && ParseInt(args[0]).Some? ==> port == ParseInt(args[0]).value
    ensures |args| > 0 && ParseInt(args[0]).None? ==> port == DefaultPort
    ensures |args| == 0 && env.Some? && env.value != "" && ParseInt(env.value).Some? ==> port == ParseInt(env.value).value
    ensures |args| == 0 && (env.None? || env.value == "" || ParseInt(env.value).None?) ==> port == DefaultPort
    ensures IntMin <= port <= IntMax
  {
    port := DefaultPort;
    if |args| > 0 {
      var parsed := ParseInt(args[0]);
      if parsed.Some? {
        port := parsed.value;
      }
    } else {
      if env.Some? && env.value != "" {
        var parsed := ParseInt(env.value);
        if parsed.Some? {
          port := parsed.value;
        }
      }
    }
  }

  /** A PrintWriter, by identity. */
  type WriterId = nat

  /** The `clients` list, in order, and for every writer ever registered the lines it was handed. */
  datatype Roster = Roster(clients: seq<WriterId>, printed: map<WriterId, seq<string>>)

  predicate Distinct(s: seq<WriterId>) {
    forall i, j :: 0 <= i < j < |s| ==> s[i] != s[j]
  }

  /** Each writer is in the list at most once, and every listed writer has a log. */
  predicate Sound(r: Roster) {
    Distinct(r.clients) && forall c :: c in r.clients ==> c in r.printed
  }

  /** List.remove(Object): the first occurrence goes, the list is unchanged when there is none. */
  function RemoveFirst(s: seq<WriterId>, c: WriterId): (r: seq<WriterId>)
    ensures |r| <= |s|
  {
    if s == [] then []
    else if s[0] == c then s[1..]
    else [s[0]] + RemoveFirst(s[1..], c)
  }

  lemma {:induction false} RemoveFirstAbsent(s: seq<WriterId>, c: WriterId)
    requires c !in s
    ensures RemoveFirst(s, c) == s
  {
    if s != [] {
      RemoveFirstAbsent(s[1..], c);
    }
  }

  /** The first occurrence is the one after `a` when `a` has none. */
  lemma {:induction false} RemoveFirstAfter(a: seq<WriterId>, c: WriterId, b: seq<WriterId>)
    requires c !in a
    ensures RemoveFirst(a + [c] + b, c) == a + b
  {
    if a == [] {
      assert a + [c] + b == [c] + b;
    } else {
      assert a + [c] + b == [a[0]] + (a[1..] + [c] + b);
      RemoveFirstAfter(a[1..], c, b);
      assert a + b == [a[0]] + (a[1..] + b);
    }
  }

  /** In a list without duplicates, remove takes out exactly `c` and keeps the others and their order distinct. */
  lemma {:induction false} RemoveFirstDistinct(s: seq<WriterId>, c: WriterId)
    requires Distinct(s)
    ensures Distinct(RemoveFirst(s, c))
    ensures forall x :: x in RemoveFirst(s, c) <==> x in s && x != c
  {
    if s != [] {
      var tail := s[1..];
      assert Distinct(tail) by {
        assert forall i :: 0 <= i < |tail| ==> tail[i] == s[i + 1];
      }
      assert s[0] !in tail;
      assert forall x :: x in s <==> x == s[0] || x in tail by {
        assert s == [s[0]] + tail;
      }
      if s[0] != c {
        RemoveFirstDistinct(tail, c);
        var rest := RemoveFirst(tail, c);
        assert RemoveFirst(s, c) == [s[0]] + rest;
        assert Distinct([s[0]] + rest) by {
          var t := [s[0]] + rest;
          assert forall i :: 0 < i < |t| ==> t[i] == rest[i - 1];
        }
      }
    }
  }

  /** The members of `s` not in `failing`, in their order in `s`. */
  function Kept(s: seq<WriterId>, failing: set<WriterId>): (r: seq<WriterId>)
    ensures |r| <= |s|
  {
    if s == [] then []
    else Kept(s[..|s| - 1], failing) + (if s[|s| - 1] in failing then [] else [s[|s| - 1]])
  }

  /** Exactly the failing members are dropped and every other member stays. */
  lemma {:induction false} KeptMembers(s: seq<WriterId>, failing: set<WriterId>)
    ensures forall x :: x in Kept(s, failing) <==> x in s && x !in failing
  {
    if s != [] {
      var init := s[..|s| - 1];
      KeptMembers(init, failing);
      assert s == init + [s[|s| - 1]];
    }
  }

  /** Filtering commutes with concatenation, so the survivors keep their relative order. */
  lemma {:induction false} KeptConcat(a: seq<WriterId>, b: seq<WriterId>, failing: set<WriterId>)
    ensures Kept(a + b, failing) == Kept(a, failing) + Kept(b, failing)
    decreases |b|
  {
    if b == [] {
      assert a + b == a;
    } else {
      var init := b[..|b| - 1];
      assert (a + b)[..|a + b| - 1] == a + init;
      assert (a + b)[|a + b| - 1] == b[|b| - 1];
      KeptConcat(a, init, failing);
    }
  }

  lemma {:induction false} KeptDistinct(s: seq<WriterId>, failing: set<WriterId>)
    requires Distinct(s)
    ensures Distinct(Kept(s, failing))
  {
    if s != [] {
      var init := s[..|s| - 1];
      assert Distinct(init) by {
        assert forall i :: 0 <= i < |init| ==> init[i] == s[i];
      }
      KeptDistinct(init, failing);
      KeptMembers(init, failing);
      assert s[|s| - 1] !in init;
    }
  }

  /** `lines` appended to the log of every writer in `targets`. */
  function Printed(printed: map<WriterId, seq<string>>, targets: seq<WriterId>, lines: seq<string>)
    : (r: map<WriterId, seq<string>>)
    ensures r.Keys == printed.Keys
  {
    map c | c in printed :: if c in targets then printed[c] + lines else printed[c]
  }

  /** clients.add(out): the writer goes to the end of the list. */
  function Joined(r: Roster, c: WriterId): (r': Roster)
    ensures r'.clients == r.clients + [c] && c in r'.printed && r.printed.Keys <= r'.printed.Keys
  {
    Roster(r.clients + [c], if c in r.printed then r.printed else r.printed[c := []])
  }

  /** The `finally` block: clients.remove(out). */
  function Left(r: Roster, c: WriterId): Roster {
    Roster(RemoveFirst(r.clients, c), r.printed)
  }

  /** out.println(line) on one writer. */
  function Told(r: Roster, c: WriterId, line: string): Roster
    requires c in r.printed
  {
    Roster(r.clients, r.printed[c := r.printed[c] + [line]])
  }

  /**
   * broadcast(message): every writer of the copy taken at the start is handed the message once;
   * those whose checkError() reports a failure, `failing`, are removed from the list.
   */
  function Spread(r: Roster, message: string, failing: set<WriterId>): Roster {
    Roster(Kept(r.clients, failing), Printed(r.printed, r.clients, [message]))
  }

  /** Registering a new writer keeps the roster sound. */
  lemma JoinedSound(r: Roster, c: WriterId)
    requires Sound(r) && c !in r.clients
    ensures Sound(Joined(r, c))
  {
    var s := r.clients + [c];
    assert forall i :: 0 <= i < |r.clients| ==> s[i] == r.clients[i];
  }

  /** Removing keeps the roster sound, takes out exactly that writer, and is idempotent. */
  lemma LeftSound(r: Roster, c: WriterId)
    requires Sound(r)
    ensures Sound(Left(r, c)) && c !in Left(r, c).clients
    ensures forall x :: x in Left(r, c).clients <==> x in r.clients && x != c
    ensures Left(Left(r, c), c) == Left(r, c)
  {
    RemoveFirstDistinct(r.clients, c);
    RemoveFirstAbsent(RemoveFirst(r.clients, c), c);
  }

  /**
   * A broadcast keeps the roster sound; exactly the failing writers leave the list, the others
   * stay in their order; every listed writer is handed the message once, no other log changes.
   */
  lemma SpreadMembers(r: Roster, message: string, failing: set<WriterId>)
    requires Sound(r)
    ensures Sound(Spread(r, message, failing))
    ensures forall x :: x in Spread(r, message, failing).clients <==> x in r.clients && x !in failing
    ensures forall c :: c in r.printed ==>
      Spread(r, message, failing).printed[c] == (if c in r.clients then r.printed[c] + [message] else r.printed[c])
  {
    KeptMembers(r.clients, failing);
    KeptDistinct(r.clients, failing);
  }

  /** A broadcast in which no write fails keeps the list as it is. */
  lemma {:induction false} KeptNone(s: seq<WriterId>)
    ensures Kept(s, {}) == s
  {
    if s != [] {
      KeptNone(s[..|s| - 1]);
      assert s == s[..|s| - 1] + [s[|s| - 1]];
    }
  }

  /** The roster while broadcast is under way: the first `i` writers of the copy are done. */
  function SpreadTo(r: Roster, message: string, failing: set<WriterId>, i: nat): Roster
    requires i <= |r.clients|
  {
    Roster(Kept(r.clients[..i], failing) + r.clients[i..], Printed(r.printed, r.clients[..i], [message]))
  }

  lemma SpreadToStart(r: Roster, message: string, failing: set<WriterId>)
    ensures SpreadTo(r, message, failing, 0) == r
  {
    assert r.clients[..0] == [] && r.clients[0..] == r.clients;
  }

  lemma SpreadToAll(r: Roster, message: string, failing: set<WriterId>)
    ensures SpreadTo(r, message, failing, |r.clients|) == Spread(r, message, failing)
  {
    assert r.clients[..|r.clients|] == r.clients;
    assert Kept(r.clients, failing) + r.clients[|r.clients|..] == Kept(r.clients, failing);
  }

  /** In a sound roster the `i`-th writer has a log and is not among those before it. */
  lemma SoundAt(r: Roster, i: nat)
    requires Sound(r) && i < |r.clients|
    ensures r.clients[i] in r.printed && r.clients[i] !in r.clients[..i]
  {
  }

  /** One writer of the copy is handed the message, and removed from the list if that fails. */
  function Handed(p: Roster, c: WriterId, message: string, failing: set<WriterId>): Roster
    requires c in p.printed
  {
    Roster(if c in failing then RemoveFirst(p.clients, c) else p.clients, p.printed[c := p.printed[c] + [message]])
  }

  /** The `i`-th writer of the copy: handed the message, and removed from the list if that fails. */
  lemma SpreadStep(r: Roster, message: string, failing: set<WriterId>, i: nat)
    requires i < |r.clients| && r.clients[i] in r.printed && r.clients[i] !in r.clients[..i]
    ensures r.clients[i] in SpreadTo(r, message, failing, i).printed
    ensures SpreadTo(r, message, failing, i + 1) == Handed(SpreadTo(r, message, failing, i), r.clients[i], message, failing)
  {
    var s, c := r.clients, r.clients[i];
    StepClients(s, failing, i);
    assert s[..i + 1] == s[..i] + [c] by {
      Slices(s, i);
    }
    PrintedStep(r.printed, s[..i], c, [message]);
  }

  lemma Slices(s: seq<WriterId>, i: nat)
    requires i < |s|
    ensures s[..i + 1] == s[..i] + [s[i]] && s[i..] == [s[i]] + s[i + 1..] && s[..i + 1][..i] == s[..i]
  {
  }

  /** The list half of SpreadStep. */
  lemma StepClients(s: seq<WriterId>, failing: set<WriterId>, i: nat)
    requires i < |s| && s[i] !in s[..i]
    ensures var before := Kept(s[..i], failing) + s[i..];
      Kept(s[..i + 1], failing) + s[i + 1..] == (if s[i] in failing then RemoveFirst(before, s[i]) else before)
  {
    var c, done, rest := s[i], s[..i], s[i + 1..];
    Slices(s, i);
    var kept := Kept(done, failing);
    assert Kept(s[..i + 1], failing) == kept + (if c in failing then [] else [c]);
    assert kept + s[i..] == kept + [c] + rest;
    KeptMembers(done, failing);
    HandedClients(kept, c, rest, failing);
  }

  lemma HandedClients(kept: seq<WriterId>, c: WriterId, rest: seq<WriterId>, failing: set<WriterId>)
    requires c !in kept
    ensures (if c in failing then RemoveFirst(kept + [c] + rest, c) else kept + [c] + rest)
      == (kept + (if c in failing then [] else [c])) + rest
  {
    if c in failing {
      RemoveFirstAfter(kept, c, rest);
      assert kept + [] == kept;
    }
  }

  lemma PrintedStep(printed: map<WriterId, seq<string>>, done: seq<WriterId>, c: WriterId, lines: seq<string>)
    requires c in printed && c !in done
    ensures var p := Printed(printed, done, lines);
      Printed(printed, done + [c], lines) == p[c := p[c] + lines]
  {
    var p := Printed(printed, done, lines);
    var q := Printed(printed, done + [c], lines);
    assert forall x :: x in q ==> q[x] == p[c := p[c] + lines][x];
  }

  /** The lines a client sends that handleClient broadcasts: the non-blank ones, prefixed. */
  function Post(line: string): seq<string> {
    if Trim(line) != "" then ["Client: " + line] else []
  }

  function Posts(lines: seq<string>): seq<string> {
    if lines == [] then [] else Post(lines[0]) + Posts(lines[1..])
  }

  /** A line is broadcast exactly when it is not all white space. */
  lemma PostBlank(line: string)
    ensures Post(line) == [] <==> IsBlank(line)
    ensures !IsBlank(line) ==> Post(line) == ["Client: " + line]
  {
    TrimBlank(line);
  }

  /** The broadcasts of two stretches of lines follow each other, in arrival order. */
  lemma {:induction false} PostsConcat(a: seq<string>, b: seq<string>)
    ensures Posts(a + b) == Posts(a) + Posts(b)
  {
    if a == [] {
      assert a + b == b;
    } else {
      assert (a + b)[0] == a[0] && (a + b)[1..] == a[1..] + b;
      PostsConcat(a[1..], b);
      assert Posts(a + b) == Post(a[0]) + (Posts(a[1..]) + Posts(b));
    }
  }

  /** The broadcasts of `messages` one after the other, the k-th with failures `failing(k)`. */
  function SpreadAll(r: Roster, messages: seq<string>, failing: nat -> set<WriterId>, k: nat): Roster
    decreases |messages|
  {
    if messages == [] then r
    else SpreadAll(Spread(r, messages[0], failing(k)), messages[1..], failing, k + 1)
  }

  /** Two runs of broadcasts one after the other are one run, numbered on. */
  lemma {:induction false} SpreadAllConcat(r: Roster, a: seq<string>, b: seq<string>,
                                           failing: nat -> set<WriterId>, k: nat)
    ensures SpreadAll(r, a + b, failing, k) == SpreadAll(SpreadAll(r, a, failing, k), b, failing, k + |a|)
    decreases |a|
  {
    if a == [] {
      assert a + b == b;
    } else {
      assert (a + b)[0] == a[0] && (a + b)[1..] == a[1..] + b;
      SpreadAllConcat(Spread(r, a[0], failing(k)), a[1..], b, failing, k + 1);
    }
  }

  lemma PostsStep(lines: seq<string>, i: nat)
    requires i < |lines|
    ensures Posts(lines[..i + 1]) == Posts(lines[..i]) + Post(lines[i])
  {
    assert lines[..i + 1] == lines[..i] + [lines[i]];
    PostsConcat(lines[..i], [lines[i]]);
    assert Posts([lines[i]]) == Post(lines[i]) + Posts([]);
  }

  /** Once every line is read, the lines read are all the lines. */
  lemma AllRead(lines: seq<string>)
    ensures Posts(lines[..|lines|]) == Posts(lines)
  {
    assert lines[..|lines|] == lines;
  }

  /** One more line read in handleClient's loop: the run of broadcasts so far grows by that line's. */
  lemma SessionStep(base: Roster, posted: seq<string>, line: string, failing: nat -> set<WriterId>,
                    mid: Roster, now: Roster)
    requires mid == SpreadAll(base, posted, failing, 0)
    requires now == SpreadAll(mid, Post(line), failing, |posted|)
    ensures now == SpreadAll(base, posted + Post(line), failing, 0)
  {
    SpreadAllConcat(base, posted, Post(line), failing, 0);
  }

  /**
   * A run of broadcasts keeps the roster sound, never lists a writer that was not listed, and
   * only appends to the logs.
   */
  lemma {:induction false} SpreadAllShrinks(r: Roster, messages: seq<string>, failing: nat -> set<WriterId>, k: nat)
    requires Sound(r)
    ensures var e := SpreadAll(r, messages, failing, k);
      Sound(e) && e.printed.Keys == r.printed.Keys &&
      (forall x :: x in e.clients ==> x in r.clients) &&
      forall c :: c in r.printed ==> c in e.printed && r.printed[c] <= e.printed[c]
    decreases |messages|
  {
    if messages != [] {
      var r' := Spread(r, messages[0], failing(k));
      SpreadMembers(r, messages[0], failing(k));
      SpreadAllShrinks(r', messages[1..], failing, k + 1);
    }
  }

  /** Two appends to the same writers are one append of both. */
  lemma PrintedTwice(printed: map<WriterId, seq<string>>, targets: seq<WriterId>, x: seq<string>, y: seq<string>)
    ensures Printed(Printed(printed, targets, x), targets, y) == Printed(printed, targets, x + y)
  {
    var left := Printed(Printed(printed, targets, x), targets, y);
    assert forall c :: c in left ==> left[c] == Printed(printed, targets, x + y)[c];
  }

  lemma PrintedNothing(printed: map<WriterId, seq<string>>, targets: seq<WriterId>)
    ensures Printed(printed, targets, []) == printed
  {
    assert forall c :: c in printed ==> printed[c] + [] == printed[c];
  }

  /** While no write fails, a run of broadcasts appends all of them, in order, to every listed writer. */
  lemma {:induction false} SpreadAllFaultless(r: Roster, messages: seq<string>, failing: nat -> set<WriterId>, k: nat)
    requires Sound(r) && forall j :: failing(j) == {}
    ensures SpreadAll(r, messages, failing, k) == Roster(r.clients, Printed(r.printed, r.clients, messages))
    decreases |messages|
  {
    if messages == [] {
      PrintedNothing(r.printed, r.clients);
    } else {
      var r' := Spread(r, messages[0], failing(k));
      assert r' == Roster(r.clients, Printed(r.printed, r.clients, [messages[0]])) by {
        assert failing(k) == {};
        KeptNone(r.clients);
      }
      SpreadMembers(r, messages[0], failing(k));
      SpreadAllFaultless(r', messages[1..], failing, k + 1);
      PrintedTwice(r.printed, r.clients, [messages[0]], messages[1..]);
      assert [messages[0]] + messages[1..] == messages;
    }
  }

  const WelcomeText: string := "Bienvenue sur le serveur de messagerie! Utilisateurs connectés: "
  const ContentType: string := Handshake.Field("Content-Type", "text/html; charset=UTF-8")
  /** The head handleHttpRequest writes: the status line, a Content-Type field, the empty line. */
  const OkHead: string := Handshake.Head("HTTP/1.1 200 OK", [ContentType])

  /** What handleHttpRequest prints: the 200 head and the page, or nothing when building the page failed. */
  function HttpReply(html: Option<string>): (r: string)
    ensures html.Some? ==> |r| == |OkHead| + |html.value| && r[|OkHead|..] == html.value
    ensures html.None? <==> r == ""
  {
    if html.Some? then OkHead + html.value else ""
  }

  /** The head is the status line and the Content-Type line, each closed by CRLF, then the empty line. */
  lemma OkHeadText()
    ensures OkHead == "HTTP/1.1 200 OK\r\n" + ContentType + "\r\n\r\n"
  {
    assert Handshake.Fields([ContentType]) == ContentType + "\r\n" + Handshake.Fields([]);
  }

  /** Read with the header parser, the head carries one field, Content-Type. */
  lemma OkHeadParse()
    ensures Handshake.HeaderMap([ContentType]) == map["Content-Type" := "text/html; charset=UTF-8"]
  {
    Handshake.ParseField("Content-Type", "text/html; charset=UTF-8");
    Handshake.HeaderMapSnoc([], ContentType);
    assert [] + [ContentType] == [ContentType];
  }

  /** The request lines answered as HTTP instead of joining the chat. */
  predicate IsHttp(line: string) {
    StartsWith(line, "GET ") || StartsWith(line, "HEAD ")
  }

  /**
   * handleClient for a new writer `me` on the lines the client sends (readLine returning null,
   * or throwing, ends them), with `html` the page handleHttpRequest builds (None when one of its
   * reads or the host name lookup throws, and nothing is printed) and `failing(k)` the writers
   * whose k-th broadcast of this session fails. The result is what is printed to `me` outside
   * the roster's logs (the HTTP reply) and the roster afterwards.
   */
  function Chat(r: Roster, me: WriterId, lines: seq<string>, html: Option<string>, failing: nat -> set<WriterId>)
    : (s: (string, Roster))
  {
    if lines == [] then ("", Left(r, me))
    else if IsHttp(lines[0]) then (HttpReply(html), Left(r, me))
    else
      var joined := Joined(r, me);
      var welcomed := Told(joined, me, WelcomeText + Decimal(|joined.clients|));
      ("", Left(SpreadAll(welcomed, Posts(lines), failing, 0), me))
  }

  /** A connection closed before its first line, or an HTTP request, never joins the chat. */
  lemma ChatUnregistered(r: Roster, me: WriterId, lines: seq<string>, html: Option<string>, failing: nat -> set<WriterId>)
    requires me !in r.clients
    requires lines == [] || IsHttp(lines[0])
    ensures Chat(r, me, lines, html, failing) == (if lines == [] then "" else HttpReply(html), r)
  {
    RemoveFirstAbsent(r.clients, me);
  }

  /**
   * Whatever the lines and the failures, the session leaves the roster sound, without `me`,
   * without any writer that was not listed before, and with every log only appended to.
   */
  lemma ChatRemoves(r: Roster, me: WriterId, lines: seq<string>, html: Option<string>, failing: nat -> set<WriterId>)
    requires Sound(r) && me !in r.clients
    ensures var e := Chat(r, me, lines, html, failing).1;
      Sound(e) && me !in e.clients && (forall x :: x in e.clients ==> x in r.clients) &&
      forall c :: c in r.printed ==> c in e.printed && r.printed[c] <= e.printed[c]
  {
    if lines == [] || IsHttp(lines[0]) {
      RemoveFirstAbsent(r.clients, me);
    } else {
      var joined := Joined(r, me);
      JoinedSound(r, me);
      var welcomed := Told(joined, me, WelcomeText + Decimal(|joined.clients|));
      assert Sound(welcomed);
      assert forall c :: c in r.printed ==> r.printed[c] <= welcomed.printed[c];
      var e := SpreadAll(welcomed, Posts(lines), failing, 0);
      SpreadAllShrinks(welcomed, Posts(lines), failing, 0);
      LeftSound(e, me);
    }
  }

  /**
   * A chat session in which no write fails: `me` is welcomed with the number of connected
   * writers, itself included; every non-blank line it sends, the first one included, is
   * broadcast as "Client: " + line, in arrival order, to every listed writer and to `me`;
   * when its lines end it leaves the list, which is then as before.
   */
  lemma ChatEchoes(r: Roster, me: WriterId, lines: seq<string>, html: Option<string>, failing: nat -> set<WriterId>)
    requires Sound(r) && me !in r.clients && me !in r.printed
    requires lines != [] && !IsHttp(lines[0])
    requires forall j :: failing(j) == {}
    ensures var e := Chat(r, me, lines, html, failing).1;
      e.clients == r.clients &&
      me in e.printed && e.printed[me] == [WelcomeText + Decimal(|r.clients| + 1)] + Posts(lines) &&
      forall c :: c in r.printed ==> c in e.printed && e.printed[c] == (if c in r.clients then r.printed[c] + Posts(lines) else r.printed[c])
  {
    var welcome := WelcomeText + Decimal(|r.clients| + 1);
    assert Chat(r, me, lines, html, failing).1 == Left(SpreadAll(Told(Joined(r, me), me, welcome), Posts(lines), failing, 0), me);
    FaultlessSession(r, me, welcome, Posts(lines), failing);
    PrintedWelcome(r.printed, r.clients, me, welcome, Posts(lines));
  }

  /** The roster after a session of a newcomer welcomed with `welcome` whose posts all go through. */
  lemma FaultlessSession(r: Roster, me: WriterId, welcome: string, posts: seq<string>, failing: nat -> set<WriterId>)
    requires Sound(r) && me !in r.clients && me !in r.printed
    requires forall j :: failing(j) == {}
    ensures Left(SpreadAll(Told(Joined(r, me), me, welcome), posts, failing, 0), me)
      == Roster(r.clients, Printed(r.printed[me := [welcome]], r.clients + [me], posts))
  {
    var w := Told(Joined(r, me), me, welcome);
    assert w == Roster(r.clients + [me], r.printed[me := [welcome]]) by {
      assert Joined(r, me).printed == r.printed[me := []];
      assert [] + [welcome] == [welcome];
      assert r.printed[me := []][me := [welcome]] == r.printed[me := [welcome]];
    }
    assert Sound(w) by {
      JoinedSound(r, me);
    }
    assert SpreadAll(w, posts, failing, 0) == Roster(r.clients + [me], Printed(r.printed[me := [welcome]], r.clients + [me], posts)) by {
      SpreadAllFaultless(w, posts, failing, 0);
    }
    assert RemoveFirst(r.clients + [me], me) == r.clients by {
      RemoveFirstAfter(r.clients, me, []);
      assert r.clients + [me] + [] == r.clients + [me];
    }
  }

  /** The logs after a faultless session: the newcomer's starts with its welcome, the others only gain the posts. */
  lemma PrintedWelcome(printed: map<WriterId, seq<string>>, clients: seq<WriterId>, me: WriterId,
                       welcome: string, posts: seq<string>)
    requires me !in printed
    ensures var m := Printed(printed[me := [welcome]], clients + [me], posts);
      me in m && m[me] == [welcome] + posts &&
      forall c :: c in printed ==> c in m && m[c] == (if c in clients then printed[c] + posts else printed[c])
  {
    var m := Printed(printed[me := [welcome]], clients + [me], posts);
    assert forall c :: c in clients + [me] <==> c in clients || c == me;
  }

  /**
   * handleHttpRequest's header loop from line `from`: it reads lines until readLine gives null
   * or an empty line, which it consumes; `next` is the first line it did not read.
   */
  method SkimHeaders(lines: seq<string>, from: nat) returns (next: nat)
    requires from <= |lines|
    ensures from <= next <= |lines|
    ensures next < |lines| ==> from < next && lines[next - 1] == ""
    ensures forall j :: from <= j < next - 1 ==> lines[j] != ""
    ensures next == |lines| && from < next ==> lines[next - 1] == "" || forall j :: from <= j < next ==> lines[j] != ""
  {
    next := from;
    while true
      invariant from <= next <= |lines|
      invariant forall j :: from <= j < next ==> lines[j] != ""
      decreases |lines| - next
    {
      if next == |lines| {
        return;
      }
      var line := lines[next];
      next := next + 1;
      if line == "" {
        return;
      }
    }
  }

  /**
   * The `clients` list as the server holds it, with what each writer was handed.
   */
  class LineHub {
    var clients: seq<WriterId>
    var printed: map<WriterId, seq<string>>

    function State(): Roster
      reads this
    {
      Roster(clients, printed)
    }

    constructor()
      ensures State() == Roster([], map[])
    {
      clients, printed := [], map[];
    }

    /** clients.add(out). */
    method Add(c: WriterId)
      modifies this
      ensures State() == Joined(old(State()), c)
    {
      clients := clients + [c];
      if c !in printed {
        printed := printed[c := []];
      }
    }

    /** clients.remove(out). */
    method Remove(c: WriterId)
      modifies this
      ensures State() == Left(old(State()), c)
    {
      clients := RemoveFirst(clients, c);
    }

    /** out.println(line). */
    method Tell(c: WriterId, line: string)
      requires c in printed
      modifies this
      ensures State() == Told(old(State()), c, line)
    {
      printed := printed[c := printed[c] + [line]];
    }

    /** One writer of broadcast's copy: println(message), and remove(client) if checkError() reports a failure. */
    method Hand(c: WriterId, message: string, failing: set<WriterId>)
      requires c in printed
      modifies this
      ensures State() == Handed(old(State()), c, message, failing)
    {
      printed := printed[c := printed[c] + [message]];
      if c in failing {
        clients := RemoveFirst(clients, c);
      }
    }

    /** broadcast(message) over a copy of the list, with `failing` the writers whose println fails. */
    method Broadcast(message: string, failing: set<WriterId>)
      requires Sound(State())
      modifies this
      ensures State() == Spread(old(State()), message, failing)
    {
      ghost var r0 := State();
      var copy := clients;
      SpreadToStart(r0, message, failing);
      for i := 0 to |copy|
        invariant State() == SpreadTo(r0, message, failing, i)
      {
        var c := copy[i];
        SoundAt(r0, i);
        SpreadStep(r0, message, failing, i);
        Hand(c, message, failing);
      }
      SpreadToAll(r0, message, failing);
    }

    /** `if (!line.trim().isEmpty()) broadcast("Client: " + line)`, as the k-th broadcast of the session. */
    method Relay(line: string, failing: nat -> set<WriterId>, k: nat) returns (next: nat)
      requires Sound(State())
      modifies this
      ensures Sound(State())
      ensures State() == SpreadAll(old(State()), Post(line), failing, k)
      ensures next == k + |Post(line)|
    {
      next := k;
      if Trim(line) != "" {
        SpreadMembers(State(), "Client: " + line, failing(k));
        Broadcast("Client: " + line, failing(k));
        next := k + 1;
      }
    }

    /** The chat part of `handleClient`: join, welcome, then relay every line, the first one included. */
    method Converse(me: WriterId, lines: seq<string>, failing: nat -> set<WriterId>)
      requires Sound(State()) && me !in clients && lines != []
      modifies this
      ensures Sound(State())
      ensures var joined := Joined(old(State()), me);
        State() == SpreadAll(Told(joined, me, WelcomeText + Decimal(|joined.clients|)), Posts(lines), failing, 0)
    {
      ghost var r0 := State();
      Add(me);
      JoinedSound(r0, me);
      Tell(me, WelcomeText + Decimal(|clients|));
      ghost var base := State();
      var k := Relay(lines[0], failing, 0);
      assert Posts(lines[..1]) == Post(lines[0]) by {
        assert Posts(lines[..1]) == Post(lines[0]) + Posts([]);
      }
      RelayRest(base, lines, 1, k, failing);
    }

    /** The reading loop of `handleClient`: every further line is relayed in arrival order. */
    method RelayRest(ghost base: Roster, lines: seq<string>, from: nat, k: nat, failing: nat -> set<WriterId>)
      requires from <= |lines| && Sound(State())
      requires State() == SpreadAll(base, Posts(lines[..from]), failing, 0) && k == |Posts(lines[..from])|
      modifies this
      ensures Sound(State()) && State() == SpreadAll(base, Posts(lines), failing, 0)
    {
      var i, sent := from, k;
      ghost var posted := Posts(lines[..from]);
      while i < |lines|
        invariant from <= i <= |lines|
        invariant posted == Posts(lines[..i])
        invariant Sound(State())
        invariant State() == SpreadAll(base, posted, failing, 0)
        invariant sent == |posted|
        decreases |lines| - i
      {
        ghost var mid := State();
        sent := Relay(lines[i], failing, sent);
        SessionStep(base, posted, lines[i], failing, mid, State());
        PostsStep(lines, i);
        posted := posted + Post(lines[i]);
        i := i + 1;
      }
      AllRead(lines);
    }

    /** handleClient for the new writer `me`; `reply` is what handleHttpRequest prints to it. */
    method HandleClient(me: WriterId, lines: seq<string>, html: Option<string>, failing: nat -> set<WriterId>)
      returns (reply: string)
      requires Sound(State()) && me !in clients
      modifies this
      ensures (reply, State()) == Chat(old(State()), me, lines, html, failing)
    {
      reply := "";
      if |lines| == 0 {
        Remove(me);
        return;
      }
      var first := lines[0];
      if StartsWith(first, "GET ") || StartsWith(first, "HEAD ") {
        // The header lines are read and dropped: the page is written wherever that loop stops.
        var _ := SkimHeaders(lines, 1);
        if html.Some? {
          reply := OkHead + html.value;
        }
        Remove(me);
        return;
      }
      Converse(me, lines, failing);
      Remove(me);
    }
  }
}
