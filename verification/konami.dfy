/** The keyboard easter egg (static/js/main.js): a rolling buffer of the last
    ten `KeyboardEvent.key` values, compared after every key press with a fixed
    pattern by joining both with ','. */
module Konami {
  import opened Common

  const Window: nat := 10

  const Pattern: seq<string> :=
    ["ArrowUp", "ArrowUp", "ArrowDown", "ArrowDown", "ArrowLeft",
     "ArrowRight", "ArrowLeft", "ArrowRight", "b", "a"]

  /** `Array.prototype.join(',')`: the first key leads, and between
      comma-free keys a comma appears exactly when there is a separator. */
  function Join(keys: seq<string>): (r: string)
    ensures |keys| > 0 ==> keys[0] <= r
    ensures (forall i :: 0 <= i < |keys| ==> ',' !in keys[i]) ==> (',' in r <==> |keys| > 1)
  {
    if |keys| == 0 then ""
    else if |keys| == 1 then keys[0]
    else keys[0] + "," + Join(keys[1..])
  }

  /** `keys.slice(-n)`: the last `n` elements, or all of them when fewer.
      For `n` = 0 the start index is -0, which `slice` reads as 0, so the
      whole array is kept. */
  function LastN(keys: seq<string>, n: nat): (r: seq<string>)
    ensures n == 0 ==> r == keys
    ensures n > 0 ==> |r| == Min(|keys|, n)
    ensures r == keys[|keys| - |r|..]
  {
    if n == 0 || |keys| <= n then keys else keys[|keys| - n..]
  }

  /** `konamiCode.push(key)` followed by `konamiCode = konamiCode.slice(-10)`. */
  function Push(buffer: seq<string>, key: string): (r: seq<string>)
    ensures |r| <= Window && |r| > 0
    ensures r[|r| - 1] == key
    ensures |buffer| < Window ==> r == buffer + [key]
    ensures |buffer| >= Window ==> r == buffer[|buffer| - Window + 1..] + [key]
  {
    LastN(buffer + [key], Window)
  }

  /** One 'keydown': the new buffer, and whether the joined buffer equals the
      joined pattern (the rainbow effect fires). */
  function KeyDown(buffer: seq<string>, key: string): (r: (seq<string>, bool))
    ensures r.0 == Push(buffer, key)
    // For keys a browser reports, the joined comparison is equality of the
    // new buffer with the pattern.
    ensures BrowserKeys(buffer) && BrowserKey(key) ==> (r.1 <==> r.0 == Pattern)
  {
    var next := Push(buffer, key);
    var fires := Join(next) == Join(Pattern);
    if BrowserKeys(buffer) && BrowserKey(key) then
      PushKeepsBrowserKeys(buffer, key);
      MatchIffPattern(next);
      (next, fires)
    else
      (next, fires)
  }

  /** Pushing a browser key onto a buffer of browser keys keeps it one. */
  lemma PushKeepsBrowserKeys(buffer: seq<string>, key: string)
    requires BrowserKeys(buffer) && BrowserKey(key)
    ensures BrowserKeys(Push(buffer, key))
  {
  }

  /** The buffer after pressing `keys` in order, starting from the empty
      buffer the page starts with. */
  function Feed(keys: seq<string>): seq<string>
  {
    if |keys| == 0 then [] else Push(Feed(keys[..|keys| - 1]), keys[|keys| - 1])
  }

  /** Whether the last key of `keys` fires the effect. */
  predicate FiresAt(keys: seq<string>)
    requires |keys| > 0
  {
    KeyDown(Feed(keys[..|keys| - 1]), keys[|keys| - 1]).1
  }

  /** After any key sequence the buffer holds at most ten keys, and exactly the
      last min(n, 10) keys in the order they were pressed. */
  lemma {:induction false} FeedIsSuffix(keys: seq<string>)
    ensures |Feed(keys)| == Min(|keys|, Window)
    ensures Feed(keys) == keys[|keys| - Min(|keys|, Window)..]
  {
    if |keys| > 0 {
      var init := keys[..|keys| - 1];
      FeedIsSuffix(init);
      PushKeepsSuffix(keys);
    }
  }

  /** Pushing the last key onto the last min(n - 1, 10) keys before it gives
      the last min(n, 10) keys. */
  lemma PushKeepsSuffix(keys: seq<string>)
    requires |keys| > 0
    ensures var init := keys[..|keys| - 1];
      Push(init[|init| - Min(|init|, Window)..], keys[|keys| - 1])
        == keys[|keys| - Min(|keys|, Window)..]
  {
  }

  /** A key the browser can report: the comma key itself (",") or a key name
      or character without a comma. */
  predicate BrowserKey(k: string)
  {
    k == "," || ',' !in k
  }

  predicate BrowserKeys(keys: seq<string>)
  {
    forall i :: 0 <= i < |keys| ==> BrowserKey(keys[i])
  }

  /** Pattern entries: non-empty and comma-free. */
  predicate PlainKeys(keys: seq<string>)
  {
    forall i :: 0 <= i < |keys| ==> keys[i] != "" && ',' !in keys[i]
  }

  /** Two comma-free heads followed by a comma and any tails are equal only
      when the heads are equal and so are the tails. */
  lemma SplitAtFirstComma(x: string, u: string, y: string, v: string)
    requires ',' !in x && ',' !in y
    requires x + "," + u == y + "," + v
    ensures x == y && u == v
  {
    var s := x + "," + u;
    assert s[|x|] == ',' && s[|y|] == ',';
    assert x == s[..|x|] == y;
    assert u == s[|x| + 1..] == v;
  }

  /** A comma-free string is never a head, a comma and more. */
  lemma NoCommaNotJoined(x: string, y: string, v: string)
    requires ',' !in x
    ensures x != y + "," + v
  {
  }

  /** The join of plain keys never starts with a comma. */
  lemma JoinHead(keys: seq<string>)
    requires |keys| > 0 && PlainKeys(keys)
    ensures |Join(keys)| > 0 && Join(keys)[0] != ','
  {
  }

  /** Under `BrowserKeys`, the ','-joined comparison with plain keys is
      sequence equality: the comma key only ever adds commas that a plain
      join has no place for. */
  lemma {:induction false} JoinInjective(a: seq<string>, b: seq<string>)
    requires |a| > 0 && |b| > 0
    requires BrowserKeys(a) && PlainKeys(b)
    requires Join(a) == Join(b)
    ensures a == b
  {
    JoinHead(b);
    assert ',' !in a[0];
    if |a| == 1 && |b| == 1 {
    } else if |a| == 1 {
      assert Join(b) == b[0] + "," + Join(b[1..]);
      NoCommaNotJoined(a[0], b[0], Join(b[1..]));
    } else if |b| == 1 {
      assert Join(a) == a[0] + "," + Join(a[1..]);
      NoCommaNotJoined(b[0], a[0], Join(a[1..]));
    } else {
      assert Join(a) == a[0] + "," + Join(a[1..]);
      assert Join(b) == b[0] + "," + Join(b[1..]);
      SplitAtFirstComma(a[0], Join(a[1..]), b[0], Join(b[1..]));
      assert BrowserKeys(a[1..]) by {
        forall i | 0 <= i < |a[1..]|
          ensures BrowserKey(a[1..][i])
        {
          assert a[1..][i] == a[i + 1];
        }
      }
      assert PlainKeys(b[1..]) by {
        forall i | 0 <= i < |b[1..]|
          ensures b[1..][i] != "" && ',' !in b[1..][i]
        {
          assert b[1..][i] == b[i + 1];
        }
      }
      JoinInjective(a[1..], b[1..]);
      assert a == [a[0]] + a[1..] && b == [b[0]] + b[1..];
    }
  }

  lemma PatternIsPlain()
    ensures PlainKeys(Pattern)
  {
  }

  /** For a buffer of browser keys, the joined comparison is exactly
      equality with the pattern. */
  lemma MatchIffPattern(buffer: seq<string>)
    requires |buffer| > 0 && BrowserKeys(buffer)
    ensures Join(buffer) == Join(Pattern) <==> buffer == Pattern
  {
    if Join(buffer) == Join(Pattern) {
      PatternIsPlain();
      JoinInjective(buffer, Pattern);
    }
  }

  /** For keys a browser can report, the effect fires on a key press exactly
      when the last ten keys, in order, are the pattern; so fewer than ten
      presses never fire it. */
  lemma FiresIffLastTenArePattern(keys: seq<string>)
    requires |keys| > 0 && BrowserKeys(keys)
    ensures FiresAt(keys) <==> |keys| >= Window && keys[|keys| - Window..] == Pattern
  {
    var init := keys[..|keys| - 1];
    var before := Feed(init);
    FeedIsSuffix(init);
    assert BrowserKeys(before) by {
      forall i | 0 <= i < |before|
        ensures BrowserKey(before[i])
      {
        assert before[i] == keys[|init| - |before| + i];
      }
    }
    assert BrowserKey(keys[|keys| - 1]);
    assert FiresAt(keys) <==> Feed(keys) == Pattern by {
      assert Feed(keys) == KeyDown(before, keys[|keys| - 1]).0;
    }
    FeedIsSuffix(keys);
    assert |Pattern| == Window;
  }

  /** Without the restriction to browser keys the joined comparison is weaker
      than sequence equality: one key whose text is the joined pattern fires
      the effect on the first press. */
  lemma CommaBearingKeyFiresEarly()
    ensures FiresAt([Join(Pattern)])
  {
  }
}
