/** Offsets into a structure block as positions in its item stream. */
module Cursor {

  import opened Bytes
  import opened Tokens

  /** o is a token boundary of b with j items before it. */
  ghost predicate At(b: seq<byte>, strs: seq<byte>, o: int, j: int)
  {
    0 <= o <= |b| && HasItems(b[..o], strs) && |Items(b[..o], strs)| == j
  }

  /** The token at o is the j-th item. */
  ghost predicate Starts(b: seq<byte>, strs: seq<byte>, o: int, j: int)
  {
    At(b, strs, o, j) && Steps(b[o..]) && First(b[o..]).value.tok != Nop
  }

  /** o is just past the j-th item, before any NOP. */
  ghost predicate Past(b: seq<byte>, strs: seq<byte>, o: int, j: int)
  {
    exists q :: Starts(b, strs, q, j) && o == q + First(b[q..]).value.len
  }

  lemma AtStart(b: seq<byte>, strs: seq<byte>)
    ensures At(b, strs, 0, 0)
  {
    assert b[..0] == [];
  }

  /** The items before and after a boundary. */
  lemma AtSplits(b: seq<byte>, strs: seq<byte>, o: int, j: int)
    requires HasAllItems(b, strs) && At(b, strs, o, j)
    ensures 0 <= o <= |b| && o % 4 == 0 && 0 <= j <= |AllItems(b, strs)|
    ensures Items(b[..o], strs) == AllItems(b, strs)[..j]
    ensures HasAllItems(b[o..], strs) && AllItems(b[o..], strs) == AllItems(b, strs)[j..]
    ensures Ends(b[o..]) || Steps(b[o..])
  {
    ParseAligned(b[..o]);
    assert b[..o] + b[o..] == b;
    AllItemsConcat(b[..o], b[o..], strs);
    hide First;
  }

  /** One token on: a NOP stays at the same item, END is reached after the last one, and any other
      token is the next item. */
  lemma StepAt(b: seq<byte>, strs: seq<byte>, o: int, j: int)
    requires HasAllItems(b, strs) && At(b, strs, o, j)
    ensures Ends(b[o..]) <==> !Steps(b[o..])
    ensures Ends(b[o..]) ==> j == |AllItems(b, strs)|
    ensures Steps(b[o..]) ==>
              var x := First(b[o..]).value;
              if x.tok == Nop then At(b, strs, o + x.len, j)
              else j < |AllItems(b, strs)| && Named(x.tok, strs) && ItemOf(x.tok, strs) == [AllItems(b, strs)[j]]
                   && At(b, strs, o + x.len, j + 1) && Past(b, strs, o + x.len, j) && Starts(b, strs, o, j)
  {
    hide First, At, Items, HasItems, AllItems, HasAllItems, Named, ItemOf;
    AtSplits(b, strs, o, j);
    if Steps(b[o..]) {
      HeadItem(b[o..], strs);
      assert First(b[o..]).value.tok != Nop ==> AllItems(b, strs)[j..][0] == AllItems(b, strs)[j];
      TokenPiece(b, strs, o, j, First(b[o..]).value);
      assert First(b[o..]).value.tok != Nop ==> Starts(b, strs, o, j);
    } else {
      hide Steps;
      assert Ends(b[o..]);
      NoItems(b[o..], strs);
      assert |AllItems(b, strs)[j..]| == 0;
    }
  }

  lemma NoItems(b: seq<byte>, strs: seq<byte>)
    requires HasAllItems(b, strs) && Ends(b)
    ensures AllItems(b, strs) == []
  {
  }

  /** A block that starts with a token other than END starts with its item. */
  lemma HeadItem(b: seq<byte>, strs: seq<byte>)
    requires HasAllItems(b, strs) && Steps(b)
    ensures !Ends(b)
    ensures var t := First(b).value.tok;
      && Named(t, strs)
      && (t != Nop ==> AllItems(b, strs) != [] && ItemOf(t, strs) == [AllItems(b, strs)[0]])
  {
    hide First;
    var t := First(b).value.tok;
    assert Stream(b)[0] == t && t in Stream(b);
  }

  lemma TokenPiece(b: seq<byte>, strs: seq<byte>, o: int, j: int, x: Lexeme)
    requires At(b, strs, o, j) && Steps(b[o..]) && First(b[o..]).value == x && Named(x.tok, strs)
    ensures At(b, strs, o + x.len, j + if x.tok == Nop then 0 else 1)
  {
    var n := o + x.len;
    var c := b[o..n];
    FirstLocal(b[o..], x.len);
    assert b[o..][..x.len] == c;
    ParseOne(c);
    ResolveOne(x.tok, strs);
    ItemsConcat(b[..o], c, strs);
    assert b[..o] + c == b[..n];
    hide First, Parses;
  }

  /** The items between two boundaries. */
  lemma ItemsBetween(b: seq<byte>, strs: seq<byte>, o: int, j: int, o': int, j': int)
    requires HasAllItems(b, strs) && At(b, strs, o, j) && At(b, strs, o', j') && o <= o'
    ensures j <= j' <= |AllItems(b, strs)|
    ensures HasItems(b[o..o'], strs) && Items(b[o..o'], strs) == AllItems(b, strs)[j..j']
  {
    hide First;
    AtSplits(b, strs, o', j'); AtSplits(b, strs, o, j);
    ParseBetween(b, o, o');
    var x, y := Parse(b[..o]), Parse(b[o..o']);
    assert Resolves(y, strs) by {
      forall t | t in y ensures Named(t, strs) { assert t in x + y; }
    }
    ResolveConcat(x, y, strs);
    assert Items(b[..o'], strs) == Items(b[..o], strs) + Items(b[o..o'], strs);
    assert AllItems(b, strs)[..j'][j..] == AllItems(b, strs)[j..j'];
    hide At, HasItems, HasAllItems;
  }

  lemma StartsBefore(b: seq<byte>, strs: seq<byte>, o: int, j: int, o': int, j': int)
    requires HasAllItems(b, strs) && Starts(b, strs, o, j) && At(b, strs, o', j') && o < o'
    ensures j < j'
  {
    hide First, Items, HasItems, AllItems, HasAllItems, Named, ItemOf;
    StepAt(b, strs, o, j);
    StepWithin(b, strs, o, j, o', j');
    ItemsBetween(b, strs, o + First(b[o..]).value.len, j + 1, o', j');
  }

  /** A token before a later boundary ends at or before it. */
  lemma StepWithin(b: seq<byte>, strs: seq<byte>, o: int, j: int, o': int, j': int)
    requires At(b, strs, o, j) && At(b, strs, o', j') && o < o'
    ensures First(b[o..]).Some? && o + First(b[o..]).value.len <= o'
  {
    hide First;
    ParseBetween(b, o, o');
    var c := b[o..o'];
    assert c != [] && Steps(c);
    FirstExtends(c, b[o'..]);
    assert c + b[o'..] == b[o..];
  }

  /** Two tokens that are items: offsets are ordered as the items are, so an item has one offset. */
  lemma StartsOrdered(b: seq<byte>, strs: seq<byte>, o: int, j: int, o': int, j': int)
    requires HasAllItems(b, strs) && Starts(b, strs, o, j) && Starts(b, strs, o', j')
    ensures o < o' <==> j < j'
    ensures o == o' <==> j == j'
  {
    hide First, Items, HasItems;
    if o < o' { StartsBefore(b, strs, o, j, o', j'); }
    if o' < o { StartsBefore(b, strs, o', j', o, j); }
  }
}
