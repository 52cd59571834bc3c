/**
 The message builder of the Bluetooth controller. `sendData` and
 `log(const KVP*, int)` both turn an array of key/value pairs into one
 JSON-looking line, `{"k1": "v1", "k2": "v2"}`, with keys and values copied
 verbatim; `log(key, value)` builds the one-pair form directly. Transmission
 (the BLE characteristic and its notify) is not modelled: a send is the
 message it would transmit.
 */
module Telemetry {

  /** One `KVP` record. */
  datatype Pair = Pair(key: string, value: string)

  /** One pair as the loop body renders it: `"key": "value"`. */
  function Render(p: Pair): (s: string)
    ensures |s| == |p.key| + |p.value| + 6
  {
    "\"" + p.key + "\": \"" + p.value + "\""
  }

  /** The rendered pairs in order, separated by `", "`. */
  function Join(ps: seq<Pair>): string
  {
    if |ps| == 0 then ""
    else if |ps| == 1 then Render(ps[0])
    else Join(ps[..|ps| - 1]) + ", " + Render(ps[|ps| - 1])
  }

  /** The message for a pair array: braces around the joined pairs. */
  function Message(ps: seq<Pair>): (m: string)
    ensures |m| >= 2 && m[0] == '{' && m[|m| - 1] == '}'
    ensures ps == [] <==> m == "{}"
  {
    "{" + Join(ps) + "}"
  }

  /** The loop shared by `sendData` and `log(const KVP*, int)`: append each
      pair, then `", "` after every pair but the last, then `}`. */
  method BuildMessage(kvp: seq<Pair>) returns (message: string)
    ensures message == Message(kvp)
  {
    message := "{";
    var i := 0;
    while i < |kvp|
      invariant 0 <= i <= |kvp|
      invariant message == "{" + Join(kvp[..i]) + (if 0 < i < |kvp| then ", " else "")
    {
      var piece := "\"" + kvp[i].key + "\": \"" + kvp[i].value + "\"";
      JoinSnoc(kvp, i);
      message := message + piece;
      if i < |kvp| - 1 {
        message := message + ", ";
      }
      i := i + 1;
    }
    assert kvp[..i] == kvp;
    message := message + "}";
  }

  /** Appending one more pair to a prefix appends a separator (unless the
      prefix is empty) and the pair's rendering. */
  lemma JoinSnoc(kvp: seq<Pair>, i: int)
    requires 0 <= i < |kvp|
    ensures "{" + Join(kvp[..i + 1]) ==
              "{" + Join(kvp[..i]) + (if 0 < i then ", " else "") + Render(kvp[i])
  {
    assert kvp[..i + 1][..i] == kvp[..i];
  }

  /** `log(key, value)`: the one-pair message, built without the loop. */
  function LogPair(key: string, value: string): (message: string)
    ensures message == Message([Pair(key, value)])
  {
    "{\"" + key + "\": \"" + value + "\"}"
  }

  /** Read from the front, the message is the first pair followed, when more
      remain, by `", "` and the rest: the pairs appear in array order. */
  lemma {:induction false} JoinFront(p: Pair, ps: seq<Pair>)
    ensures Join([p] + ps) == Render(p) + (if ps == [] then "" else ", " + Join(ps))
    decreases |ps|
  {
    if |ps| > 1 {
      var all := [p] + ps;
      assert all[..|all| - 1] == [p] + ps[..|ps| - 1];
      JoinFront(p, ps[..|ps| - 1]);
    } else if |ps| == 1 {
      assert ([p] + ps)[..1] == [p];
    }
  }

  /** Summed length of the rendered pairs. */
  function RenderedLength(ps: seq<Pair>): nat
  {
    if ps == [] then 0 else RenderedLength(ps[..|ps| - 1]) + |Render(ps[|ps| - 1])|
  }

  /** With `n >= 1` pairs the message holds the braces, every rendered pair
      and exactly `n - 1` two-character separators, and nothing else. */
  lemma {:induction false} MessageLength(ps: seq<Pair>)
    requires |ps| >= 1
    ensures |Message(ps)| == 2 + RenderedLength(ps) + 2 * (|ps| - 1)
  {
    JoinLength(ps);
  }

  lemma {:induction false} JoinLength(ps: seq<Pair>)
    requires |ps| >= 1
    ensures |Join(ps)| == RenderedLength(ps) + 2 * (|ps| - 1)
    decreases |ps|
  {
    if |ps| > 1 {
      JoinLength(ps[..|ps| - 1]);
    } else {
      assert ps[..0] == [];
    }
  }

  /** Keys and values are not escaped, so one pair whose value carries a
      quote and a separator yields the same message as two honest pairs:
      the message alone does not determine the pairs. */
  lemma NoEscaping()
    ensures Message([Pair("a", "b\", \"c\": \"d")]) == Message([Pair("a", "b"), Pair("c", "d")])
    ensures [Pair("a", "b\", \"c\": \"d")] != [Pair("a", "b"), Pair("c", "d")]
  {
    assert [Pair("a", "b"), Pair("c", "d")][..1] == [Pair("a", "b")];
  }
}
