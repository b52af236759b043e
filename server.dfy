/**
 * One request of a client session (main.go, the body of the loop in
 * `handleConnection`): a decoded request is checked, its command name is
 * upper-cased and matched, the argument count is checked, the store is called
 * and the reply bytes are formed. `Respond` is the model of one request as a
 * step on the store's map; `Dispatch` is the same step done on the store
 * object, proved to agree with it.
 */
module Server {
  import opened Ascii
  import Decimal
  import Resp
  import Store

  /** The store's map after a request, the bytes written back, and whether the session ends. */
  datatype Outcome = Outcome(data: Store.Data, reply: Bytes, quit: bool)

  /**
   * The shape every reply has: a tag byte saying which kind of frame it is
   * (error, simple string, integer or bulk string) and a closing CR LF.
   */
  predicate Tagged(reply: Bytes)
  {
    && |reply| >= 3
    && reply[0] in {Resp.ERROR, Resp.SIMPLE_STRING, Resp.INTEGER, Resp.BULK_STRING}
    && reply[|reply| - 2..] == CRLF
  }

  /** `-<text>\r\n`: an error reply. */
  function ErrorReply(text: Bytes): (r: Bytes)
    ensures Tagged(r) && r[0] == Resp.ERROR
  {
    [Resp.ERROR] + text + CRLF
  }

  /** `+<text>\r\n`: a simple-string reply. */
  function SimpleReply(text: Bytes): (r: Bytes)
    ensures Tagged(r) && r[0] == Resp.SIMPLE_STRING
  {
    [Resp.SIMPLE_STRING] + text + CRLF
  }

  /** `:<n>\r\n`: the integer reply LPUSH writes. */
  function IntegerReply(n: int): (r: Bytes)
    ensures Tagged(r) && r[0] == Resp.INTEGER
  {
    [Resp.INTEGER] + Decimal.Format(n) + CRLF
  }

  /** `$-1\r\n`: the reply for a GET or LPOP that finds nothing. */
  const NULL_BULK: Bytes := [Resp.BULK_STRING] + Text("-1") + CRLF

  const INVALID_COMMAND: Bytes := ErrorReply(Text("ERR invalid command"))
  const OK: Bytes := SimpleReply(Text("OK"))
  const PONG: Bytes := SimpleReply(Text("PONG"))

  /** The reply to a known command called with the wrong number of arguments. */
  function WrongArity(name: Bytes): Bytes
  {
    ErrorReply(Text("ERR wrong number of arguments for '") + name + Text("' command"))
  }

  /** The reply to a command name that matches none of the six, quoting it upper-cased. */
  function UnknownCommand(command: Bytes): Bytes
  {
    ErrorReply(Text("ERR unknown command `") + command + Text("`"))
  }

  /** The reply to a GET or LPOP: the bulk-string frame of what was found, or the null bulk string. */
  function BulkReply(found: Option<Bytes>): (r: Bytes)
    ensures Tagged(r) && r[0] == Resp.BULK_STRING
  {
    match found
    case None => NULL_BULK
    case Some(v) => Resp.EncodeBulk(v)
  }

  const SET: Bytes := Text("SET")
  const GET: Bytes := Text("GET")
  const LPUSH: Bytes := Text("LPUSH")
  const LPOP: Bytes := Text("LPOP")
  const PING: Bytes := Text("PING")
  const QUIT: Bytes := Text("QUIT")

  /** The `.Bulk` field of each argument, in order (empty for an argument that is not a bulk string). */
  function BulksOf(args: seq<Resp.Value>): (r: seq<Bytes>)
    ensures |r| == |args|
  {
    if args == [] then [] else [args[0].bulk] + BulksOf(args[1..])
  }

  lemma {:induction false} BulksOfAt(args: seq<Resp.Value>, i: nat)
    requires i < |args|
    ensures BulksOf(args)[i] == args[i].bulk
  {
    if i > 0 {
      BulksOfAt(args[1..], i - 1);
    }
  }

  /** One request against the store's map: main.go's checks, then the switch on the command. */
  function Respond(data: Store.Data, req: Resp.Value): (r: Outcome)
    ensures Tagged(r.reply)
    ensures r.reply[0] == Resp.ERROR ==> r.data == data && !r.quit
  {
    if req.typ != Resp.ARRAY || |req.elements| == 0 then Outcome(data, INVALID_COMMAND, false)
    else Execute(data, Upper(req.elements[0].bulk), req.elements[1..])
  }

  /** The switch on the upper-cased command name, with the arguments that follow it. */
  function Execute(data: Store.Data, command: Bytes, args: seq<Resp.Value>): (r: Outcome)
    ensures Tagged(r.reply)
    ensures r.reply[0] == Resp.ERROR ==> r.data == data && !r.quit
  {
    if command == SET then
      if |args| != 2 then Outcome(data, WrongArity(Text("set")), false)
      else Outcome(data[args[0].bulk := Store.Str(args[1].bulk)], OK, false)
    else if command == GET then
      if |args| != 1 then Outcome(data, WrongArity(Text("get")), false)
      else Outcome(data, BulkReply(Store.Lookup(data, args[0].bulk)), false)
    else if command == LPUSH then
      if |args| < 2 then Outcome(data, WrongArity(Text("lpush")), false)
      else
        var (after, n) := Store.Pushed(data, args[0].bulk, BulksOf(args[1..]));
        Outcome(after, IntegerReply(n), false)
    else if command == LPOP then
      if |args| != 1 then Outcome(data, WrongArity(Text("lpop")), false)
      else
        var (after, found) := Store.Popped(data, args[0].bulk);
        Outcome(after, BulkReply(found), false)
    else if command == PING then
      if |args| > 1 then Outcome(data, WrongArity(Text("ping")), false)
      else if |args| == 0 then Outcome(data, PONG, false)
      else Outcome(data, SimpleReply(args[0].bulk), false)
    else if command == QUIT then
      if |args| != 0 then Outcome(data, WrongArity(Text("quit")), false)
      else Outcome(data, OK, true)
    else Outcome(data, UnknownCommand(command), false)
  }

  /** The argument counts each command accepts. */
  predicate ArityFits(command: Bytes, n: nat)
  {
    if command == SET then n == 2
    else if command == GET || command == LPOP then n == 1
    else if command == LPUSH then n >= 2
    else if command == PING then n <= 1
    else if command == QUIT then n == 0
    else true
  }

  predicate Known(command: Bytes)
  {
    command in {SET, GET, LPUSH, LPOP, PING, QUIT}
  }

  /** The six command names are different byte strings. */
  lemma NamesDiffer()
    ensures SET != GET && SET != LPOP && SET != PING && SET != QUIT && GET != LPOP && GET != PING
    ensures GET != QUIT && LPOP != PING && LPOP != QUIT && PING != QUIT
    ensures |SET| == |GET| == 3 && |LPUSH| == 5 && |LPOP| == |PING| == |QUIT| == 4
  {
    assert SET[0] != GET[0];
    assert LPOP[0] != PING[0] && LPOP[0] != QUIT[0] && PING[0] != QUIT[0];
  }

  /**
   * The store after one request: `Dispatch` does on the store object what
   * Respond says, and writes Respond's reply.
   */
  method Dispatch(store: Store.Store, req: Resp.Value) returns (reply: Bytes, quit: bool)
    modifies store
    ensures Respond(old(store.data), req) == Outcome(store.data, reply, quit)
  {
    if req.typ != Resp.ARRAY || |req.elements| == 0 {
      return INVALID_COMMAND, false;
    }
    var command := Upper(req.elements[0].bulk);
    var args := req.elements[1..];
    quit := false;
    if command == SET {
      if |args| != 2 {
        return WrongArity(Text("set")), false;
      }
      store.Set(args[0].bulk, args[1].bulk);
      reply := OK;
    } else if command == GET {
      if |args| != 1 {
        return WrongArity(Text("get")), false;
      }
      var value, ok := store.Get(args[0].bulk);
      reply := if ok then Resp.EncodeBulk(value) else NULL_BULK;
    } else if command == LPUSH {
      if |args| < 2 {
        return WrongArity(Text("lpush")), false;
      }
      var values := new Bytes[|args| - 1];
      var i := 1;
      while i < |args|
        invariant 1 <= i <= |args|
        invariant store.data == old(store.data)
        invariant forall j | 0 <= j < i - 1 :: values[j] == args[j + 1].bulk
      {
        values[i - 1] := args[i].bulk;
        i := i + 1;
      }
      forall j | 0 <= j < |args| - 1 ensures values[..][j] == BulksOf(args[1..])[j] {
        BulksOfAt(args[1..], j);
      }
      assert values[..] == BulksOf(args[1..]);
      var n := store.LPush(args[0].bulk, values[..]);
      reply := IntegerReply(n);
    } else if command == LPOP {
      if |args| != 1 {
        return WrongArity(Text("lpop")), false;
      }
      var value, ok := store.LPop(args[0].bulk);
      reply := if ok then Resp.EncodeBulk(value) else NULL_BULK;
    } else if command == PING {
      if |args| > 1 {
        return WrongArity(Text("ping")), false;
      }
      reply := if |args| == 0 then PONG else SimpleReply(args[0].bulk);
    } else if command == QUIT {
      if |args| != 0 {
        return WrongArity(Text("quit")), false;
      }
      reply, quit := OK, true;
    } else {
      reply := UnknownCommand(command);
    }
  }

  /** A request that is not an array, or is an empty one, is refused; the store is untouched and the session goes on. */
  lemma InvalidRequest(data: Store.Data, req: Resp.Value)
    requires req.typ != Resp.ARRAY || |req.elements| == 0
    ensures Respond(data, req) == Outcome(data, INVALID_COMMAND, false)
  {
  }

  /** Command names are matched without regard to the case of their letters. */
  lemma CaseInsensitive(data: Store.Data, req: Resp.Value, other: Resp.Value)
    requires req.typ == other.typ == Resp.ARRAY && |req.elements| > 0 && |other.elements| > 0
    requires SameIgnoringCase(req.elements[0].bulk, other.elements[0].bulk)
    requires req.elements[1..] == other.elements[1..]
    ensures Respond(data, req) == Respond(data, other)
  {
    UpperIdentifiesCase(req.elements[0].bulk, other.elements[0].bulk);
  }

  /**
   * The argument counts: a known command answers with its arity error exactly
   * when the count does not fit, and then changes nothing.
   */
  lemma ArityErrors(data: Store.Data, command: Bytes, args: seq<Resp.Value>)
    requires Known(command)
    ensures Execute(data, command, args).reply == WrongArity(Lower(command)) <==> !ArityFits(command, |args|)
    ensures !ArityFits(command, |args|) ==> Execute(data, command, args) == Outcome(data, WrongArity(Lower(command)), false)
  {
    NamesDiffer();
    LowerNames();
  }

  /** The names the arity errors quote are the lower-case command names. */
  lemma LowerNames()
    ensures Lower(SET) == Text("set") && Lower(GET) == Text("get") && Lower(LPUSH) == Text("lpush")
    ensures Lower(LPOP) == Text("lpop") && Lower(PING) == Text("ping") && Lower(QUIT) == Text("quit")
  {
  }

  /** A command name that is none of the six is answered with its upper-cased name and changes nothing. */
  lemma UnknownCommandReply(data: Store.Data, command: Bytes, args: seq<Resp.Value>)
    requires !Known(command)
    ensures Execute(data, command, args) == Outcome(data, UnknownCommand(command), false)
  {
  }

  /** Only QUIT, with no arguments, ends the session. */
  lemma QuitEndsSession(data: Store.Data, req: Resp.Value)
    ensures Respond(data, req).quit <==>
              req.typ == Resp.ARRAY && |req.elements| == 1 && Upper(req.elements[0].bulk) == QUIT
    ensures Respond(data, req).quit ==> Respond(data, req).reply == OK && Respond(data, req).data == data
  {
    NamesDiffer();
  }

  /** PING never touches the store: it answers PONG, or echoes its one argument as a simple string. */
  lemma PingReply(data: Store.Data, args: seq<Resp.Value>)
    requires |args| <= 1
    ensures Execute(data, PING, args) == Outcome(data, if args == [] then PONG else SimpleReply(args[0].bulk), false)
  {
    NamesDiffer();
  }

  /** An echoed PING argument reads back as the same text when it holds no LF. */
  lemma PingEchoDecodes(text: Bytes)
    requires LF !in text
    ensures Resp.ValueAt(SimpleReply(text), 0) == Resp.Ok((Resp.Value(Resp.SIMPLE_STRING, text, [], []), |SimpleReply(text)|))
  {
    assert SimpleReply(text) == [Resp.SIMPLE_STRING] + text + CRLF + [];
    Resp.TextRoundTrip(Resp.SIMPLE_STRING, text, []);
  }

  /**
   * The echo is written as it is: an argument holding CR LF ends the reply
   * frame early, and what follows it reads as further input.
   */
  lemma PingEchoCut(text: Bytes, after: Bytes)
    requires LF !in text
    ensures Resp.ValueAt(SimpleReply(text + CRLF + after), 0) == Resp.Ok((Resp.Value(Resp.SIMPLE_STRING, text, [], []), |text| + 3))
  {
    assert SimpleReply(text + CRLF + after) == [Resp.SIMPLE_STRING] + text + CRLF + (after + CRLF);
    Resp.TextRoundTrip(Resp.SIMPLE_STRING, text, after + CRLF);
  }

  /** A GET or LPOP hit is answered with a frame that reads back as the bytes found. */
  lemma BulkReplyDecodes(v: Bytes)
    requires |v| <= Resp.MaxBulk
    ensures Resp.ValueAt(BulkReply(Some(v)), 0) == Resp.Ok((Resp.BulkValue(v), |BulkReply(Some(v))|))
  {
    assert Resp.EncodeBulk(v) + [] == Resp.EncodeBulk(v);
    Resp.BulkRoundTrip(v, []);
  }

  /**
   * GET changes nothing and answers with the bulk-string frame of the byte
   * string the key holds; an absent key or a list key gets the null bulk string.
   */
  lemma GetReply(data: Store.Data, key: Resp.Value)
    ensures var o := Execute(data, GET, [key]);
      && o.data == data && !o.quit
      && (key.bulk in data && data[key.bulk].Str? ==> o.reply == Resp.EncodeBulk(data[key.bulk].bytes))
      && (key.bulk !in data || data[key.bulk].List? ==> o.reply == NULL_BULK)
  {
    NamesDiffer();
  }

  /**
   * LPOP answers with the frame of the front element of the key's list and
   * removes it; without a non-empty list under the key it answers the null
   * bulk string and changes nothing.
   */
  lemma LPopReply(data: Store.Data, key: Resp.Value)
    ensures var o := Execute(data, LPOP, [key]);
      var l := Store.ListOf(data, key.bulk);
      && !o.quit
      && (|l| > 0 ==> o.reply == Resp.EncodeBulk(l[0]) && o.data == data[key.bulk := Store.List(l[1..])])
      && (|l| == 0 ==> o.reply == NULL_BULK && o.data == data)
  {
    NamesDiffer();
  }

  /** SET answers +OK, and a GET of the same key, in any case, then answers with the bytes set. */
  lemma {:induction false} SetThenGet(data: Store.Data, setName: Bytes, getName: Bytes, key: Bytes, value: Bytes)
    requires Upper(setName) == SET && Upper(getName) == GET
    ensures var first := Respond(data, Resp.Command([setName, key, value]));
      && first == Outcome(data[key := Store.Str(value)], OK, false)
      && Respond(first.data, Resp.Command([getName, key])) == Outcome(first.data, Resp.EncodeBulk(value), false)
  {
    NamesDiffer();
    CommandWords([setName, key, value]);
    CommandWords([getName, key]);
  }

  /** The elements of a request written as words: the words as bulk strings, in order. */
  lemma CommandWords(words: seq<Bytes>)
    ensures Resp.Command(words).typ == Resp.ARRAY && |Resp.Command(words).elements| == |words|
    ensures forall i | 0 <= i < |words| :: Resp.Command(words).elements[i].bulk == words[i]
  {
    forall i | 0 <= i < |words| ensures Resp.Command(words).elements[i].bulk == words[i] {
      Resp.BulkValuesAt(words, i);
    }
  }

  /**
   * LPUSH on a key that does not hold a byte string: the values are pushed in
   * argument order, so the last one ends up first, and the reply is the new
   * length of the list.
   */
  lemma LPushReply(data: Store.Data, key: Resp.Value, values: seq<Resp.Value>)
    requires values != []
    requires key.bulk !in data || data[key.bulk].List?
    ensures var o := Execute(data, LPUSH, [key] + values);
      && Store.ListOf(o.data, key.bulk) == Store.Reversed(BulksOf(values)) + Store.ListOf(data, key.bulk)
      && o.reply == IntegerReply(|Store.ListOf(o.data, key.bulk)|)
      && !o.quit
  {
    NamesDiffer();
    assert ([key] + values)[1..] == values;
    Store.PushedList(data, key.bulk, BulksOf(values));
  }

  /** LPUSH on a key holding a byte string answers 0 and changes nothing. */
  lemma LPushOnString(data: Store.Data, key: Resp.Value, values: seq<Resp.Value>)
    requires values != []
    requires key.bulk in data && data[key.bulk].Str?
    ensures Execute(data, LPUSH, [key] + values) == Outcome(data, IntegerReply(0), false)
  {
    NamesDiffer();
  }

  /**
   * Through the dispatcher: LPUSH k a, LPUSH k b, LPOP k, LPOP k answer with
   * the frames of b and then a, on a key that does not hold a byte string.
   */
  lemma {:induction false} PushPushPopPop(data: Store.Data, key: Resp.Value, a: Resp.Value, b: Resp.Value)
    requires key.bulk !in data || data[key.bulk].List?
    ensures var d1 := Execute(Execute(data, LPUSH, [key, a]).data, LPUSH, [key, b]).data;
      var o3 := Execute(d1, LPOP, [key]);
      var o4 := Execute(o3.data, LPOP, [key]);
      && o3.reply == Resp.EncodeBulk(b.bulk) && o4.reply == Resp.EncodeBulk(a.bulk)
      && Store.ListOf(o4.data, key.bulk) == Store.ListOf(data, key.bulk)
  {
    NamesDiffer();
    assert [key, a][1..] == [a] && BulksOf([a]) == [a.bulk];
    assert [key, b][1..] == [b] && BulksOf([b]) == [b.bulk];
    Store.PushedList(data, key.bulk, [a.bulk]);
    Store.PushPushPopPop(data, key.bulk, a.bulk, b.bulk);
  }
}
