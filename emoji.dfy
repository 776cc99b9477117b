/** `remove_emojis`: `re.sub` of a character class repeated with `+` by the
    empty string. Deleting every maximal run of class characters deletes
    exactly the class characters, one by one, which is how it is modelled. */
module Emoji {

  /** The seven code-point ranges of the character class, in the order listed. */
  const EmojiRanges: seq<(int, int)> := [
    (0x1F600, 0x1F64F),  // emoticons
    (0x1F300, 0x1F5FF),  // symbols and pictographs
    (0x1F680, 0x1F6FF),  // transport and map symbols
    (0x1F1E0, 0x1F1FF),  // flags
    (0x2500, 0x2BEF),
    (0x2702, 0x27B0),
    (0x24C2, 0x1F251)
  ]

  /** `c` falls in one of the listed ranges. */
  predicate IsEmoji(c: char) {
    exists k | 0 <= k < |EmojiRanges| :: EmojiRanges[k].0 <= c as int <= EmojiRanges[k].1
  }

  /** The listed ranges overlap; together they are three disjoint intervals. */
  lemma EmojiClassIsThreeIntervals(c: char)
    ensures IsEmoji(c) <==>
      || 0x24C2 <= c as int <= 0x1F251
      || 0x1F300 <= c as int <= 0x1F64F
      || 0x1F680 <= c as int <= 0x1F6FF
  {
    var n := c as int;
    if 0x24C2 <= n <= 0x1F251 {
      assert EmojiRanges[6].0 <= n <= EmojiRanges[6].1;
    } else if 0x1F300 <= n <= 0x1F5FF {
      assert EmojiRanges[1].0 <= n <= EmojiRanges[1].1;
    } else if 0x1F600 <= n <= 0x1F64F {
      assert EmojiRanges[0].0 <= n <= EmojiRanges[0].1;
    } else if 0x1F680 <= n <= 0x1F6FF {
      assert EmojiRanges[2].0 <= n <= EmojiRanges[2].1;
    }
  }

  /** `remove_emojis(text)`: no class character is left. */
  function RemoveEmojis(text: string): (r: string)
    ensures |r| <= |text|
    ensures forall k :: 0 <= k < |r| ==> !IsEmoji(r[k])
  {
    if text == [] then []
    else (if IsEmoji(text[0]) then [] else [text[0]]) + RemoveEmojis(text[1..])
  }

  /** Every character outside the class occurs in the result as often as it
      did in `text`. */
  lemma {:induction false} RemoveEmojisKeepsOthers(text: string, c: char)
    requires !IsEmoji(c)
    ensures multiset(RemoveEmojis(text))[c] == multiset(text)[c]
  {
    if text != [] {
      assert text == [text[0]] + text[1..];
      RemoveEmojisKeepsOthers(text[1..], c);
    }
  }

  /** Removal works piece by piece, so the kept characters stay in order. */
  lemma {:induction false} RemoveEmojisAppend(a: string, b: string)
    ensures RemoveEmojis(a + b) == RemoveEmojis(a) + RemoveEmojis(b)
  {
    if a != [] {
      var head := if IsEmoji(a[0]) then [] else [a[0]];
      assert (a + b)[0] == a[0];
      assert (a + b)[1..] == a[1..] + b;
      calc {
        RemoveEmojis(a + b);
        head + RemoveEmojis(a[1..] + b);
        { RemoveEmojisAppend(a[1..], b); }
        head + (RemoveEmojis(a[1..]) + RemoveEmojis(b));
        (head + RemoveEmojis(a[1..])) + RemoveEmojis(b);
        RemoveEmojis(a) + RemoveEmojis(b);
      }
    } else {
      assert a + b == b;
    }
  }

  /** Text without class characters is returned as it is. */
  lemma {:induction false} RemoveEmojisKeepsCleanText(text: string)
    requires forall k :: 0 <= k < |text| ==> !IsEmoji(text[k])
    ensures RemoveEmojis(text) == text
  {
    if text != [] {
      RemoveEmojisKeepsCleanText(text[1..]);
    }
  }

  lemma RemoveEmojisIdempotent(text: string)
    ensures RemoveEmojis(RemoveEmojis(text)) == RemoveEmojis(text)
  {
    RemoveEmojisKeepsCleanText(RemoveEmojis(text));
  }
}
