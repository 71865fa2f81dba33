/**
 * The link-acceptance loop of `get_links_from_user`, over the sequence of lines the user
 * types. Prompts and the message for a rejected line are output only and are left out;
 * running out of lines before the stop word is end of input, which in the source raises an
 * error, and is `None` here.
 */
module UserInput {
  import opened Wrappers
  import opened Text
  import Config

  /** The line ends link entry: it reads "bitti" once lowercased. */
  predicate IsStop(line: string)
  {
    LowerStr(line) == Config.StopCommand
  }

  /** The line is accepted as a link: it starts with "http". */
  predicate IsLink(line: string)
  {
    IsPrefix(Config.LinkPrefix, line)
  }

  /** `acc` in front of the links still to come, if entry ends at all. */
  function Prepend(acc: seq<string>, rest: Option<seq<string>>): Option<seq<string>>
  {
    match rest
    case None => None
    case Some(links) => Some(acc + links)
  }

  /** The links read from `lines`: the accepted lines up to the first stop line, if there is one. */
  function LinksFrom(lines: seq<string>): Option<seq<string>>
    decreases |lines|
  {
    if lines == [] then None
    else if IsStop(lines[0]) then Some([])
    else Prepend(if IsLink(lines[0]) then [lines[0]] else [], LinksFrom(lines[1..]))
  }

  /** `get_links_from_user`: read lines until "bitti", keeping those that start with "http". */
  method GetLinksFromUser(lines: seq<string>) returns (links: Option<seq<string>>)
    ensures links == LinksFrom(lines)
  {
    var accepted := [];
    var i := 0;
    assert lines[0..] == lines;
    PrependNothing(LinksFrom(lines));
    while true
      invariant 0 <= i <= |lines|
      invariant LinksFrom(lines) == Prepend(accepted, LinksFrom(lines[i..]))
      decreases |lines| - i
    {
      if i == |lines| {
        return None;
      }
      var link := lines[i];
      assert lines[i..][0] == link && lines[i..][1..] == lines[i + 1..];
      i := i + 1;
      if LowerStr(link) == Config.StopCommand {
        assert accepted + [] == accepted;
        break;
      }
      var here := if IsLink(link) then [link] else [];
      PrependTwice(accepted, here, LinksFrom(lines[i..]));
      if IsPrefix(Config.LinkPrefix, link) {
        accepted := accepted + [link];
      } else {
        assert accepted + [] == accepted;
      }
    }
    links := Some(accepted);
  }

  lemma PrependNothing(rest: Option<seq<string>>)
    ensures Prepend([], rest) == rest
  {
    if rest.Some? {
      assert [] + rest.value == rest.value;
    }
  }

  lemma PrependTwice(a: seq<string>, b: seq<string>, rest: Option<seq<string>>)
    ensures Prepend(a, Prepend(b, rest)) == Prepend(a + b, rest)
  {
    if rest.Some? {
      assert a + (b + rest.value) == (a + b) + rest.value;
    }
  }

  /** The lines that start with "http", in order. */
  function AcceptedLines(lines: seq<string>): (r: seq<string>)
    decreases |lines|
  {
    if lines == [] then []
    else (if IsLink(lines[0]) then [lines[0]] else []) + AcceptedLines(lines[1..])
  }

  /**
   * Link entry stops at the first stop line: when `before` has none, the result is exactly the
   * lines of `before` that start with "http", whatever follows the stop line.
   */
  lemma {:induction false} LinksUpToStop(before: seq<string>, stop: string, after: seq<string>)
    requires forall k :: 0 <= k < |before| ==> !IsStop(before[k])
    requires IsStop(stop)
    ensures LinksFrom(before + [stop] + after) == Some(AcceptedLines(before))
    decreases |before|
  {
    var lines := before + [stop] + after;
    if before == [] {
      assert lines[0] == stop;
    } else {
      assert lines[0] == before[0];
      assert lines[1..] == before[1..] + [stop] + after;
      LinksUpToStop(before[1..], stop, after);
    }
  }

  /** Without a stop line, input ends before link entry does. */
  lemma {:induction false} NoStopNoLinks(lines: seq<string>)
    requires forall k :: 0 <= k < |lines| ==> !IsStop(lines[k])
    ensures LinksFrom(lines) == None
    decreases |lines|
  {
    if lines != [] {
      NoStopNoLinks(lines[1..]);
    }
  }

  /**
   * The accepted lines are an order-preserving subsequence of the input, each starts with
   * "http", and every input line that starts with "http" is accepted.
   */
  lemma {:induction false} AcceptedLinesIsFilter(lines: seq<string>)
    ensures IsSubsequence(AcceptedLines(lines), lines)
    ensures forall k :: 0 <= k < |AcceptedLines(lines)| ==> IsLink(AcceptedLines(lines)[k])
    ensures forall k :: 0 <= k < |lines| && IsLink(lines[k]) ==> lines[k] in AcceptedLines(lines)
    decreases |lines|
  {
    if lines != [] {
      var rest := AcceptedLines(lines[1..]);
      AcceptedLinesIsFilter(lines[1..]);
      var r := AcceptedLines(lines);
      if IsLink(lines[0]) {
        assert r == [lines[0]] + rest && r[1..] == rest;
      } else {
        assert r == rest;
        assert ([lines[0]] + lines[1..])[1..] == lines[1..];
        assert [lines[0]] + lines[1..] == lines;
      }
      forall k | 0 <= k < |lines| && IsLink(lines[k]) ensures lines[k] in r {
        if k > 0 {
          assert lines[1..][k - 1] == lines[k];
        }
      }
    }
  }

  /** A single line is kept exactly when it starts with "http". */
  lemma AcceptedLinesSingle(line: string)
    ensures AcceptedLines([line]) == if IsLink(line) then [line] else []
  {
  }

  /**
   * Acceptance works line by line: the accepted lines of `a + b` are those of `a` followed by
   * those of `b`. With `AcceptedLinesSingle` this fixes every copy of a repeated link and the order.
   */
  lemma {:induction false} AcceptedLinesAppend(a: seq<string>, b: seq<string>)
    ensures AcceptedLines(a + b) == AcceptedLines(a) + AcceptedLines(b)
    decreases |a|
  {
    if a != [] {
      assert (a + b)[0] == a[0] && (a + b)[1..] == a[1..] + b;
      AcceptedLinesAppend(a[1..], b);
    } else {
      assert a + b == b;
    }
  }
}
