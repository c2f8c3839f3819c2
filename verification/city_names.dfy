/** `loadCityNames` of scripts/seed_city_stats.js: the city names are the
    single-quoted strings of the Dart list literal `kCityNames`, found in the
    text of the file that declares it. The file is read elsewhere; its
    contents are the input here. */
module CityNames {
  import opened Results
  import Text
  import QuotedTokens
  import Seqs

  /** Where the list literal begins. */
  const ListMarker: string := "const List<String> kCityNames = ["

  /** Where it ends: the first `];` at or after the marker. */
  const ListEnd: string := "];"

  /** The three ways the loader gives up. */
  datatype LoadError = ListNotFound | ListEndNotFound | NoNamesParsed

  /** The message of the error thrown in each case. */
  function Message(e: LoadError): string
  {
    match e
    case ListNotFound => "kCityNames list not found in app_data.dart"
    case ListEndNotFound => "kCityNames list end not found."
    case NoNamesParsed => "No city names parsed."
  }

  /** The three messages tell the three errors apart. */
  lemma MessagesDistinct(e1: LoadError, e2: LoadError)
    ensures Message(e1) == Message(e2) <==> e1 == e2
  {
  }

  /** A name as the loader hands it on: non-empty, free of quotes, and with
      no whitespace at either end. */
  predicate IsCityName(n: string)
  {
    |n| > 0 && QuotedTokens.Quote !in n && Text.IsTrimmed(n)
  }

  /** `tokens.map((t) => t.trim()).filter(Boolean)`: trim every token and
      drop those left empty. */
  function Clean(tokens: seq<string>): (r: seq<string>)
    ensures |r| <= |tokens|
  {
    if |tokens| == 0 then []
    else
      var t := Text.Trim(tokens[0]);
      (if |t| > 0 then [t] else []) + Clean(tokens[1..])
  }

  /** What survives cleaning is non-empty and trimmed, and free of quotes
      when the tokens are. */
  lemma {:induction false} CleanNames(tokens: seq<string>)
    ensures forall k :: 0 <= k < |Clean(tokens)| ==> |Clean(tokens)[k]| > 0 && Text.IsTrimmed(Clean(tokens)[k])
    ensures (forall k :: 0 <= k < |tokens| ==> QuotedTokens.Quote !in tokens[k])
            ==> forall k :: 0 <= k < |Clean(tokens)| ==> IsCityName(Clean(tokens)[k])
  {
    if |tokens| > 0 {
      var t := Text.Trim(tokens[0]);
      var head := if |t| > 0 then [t] else [];
      var rest := Clean(tokens[1..]);
      CleanNames(tokens[1..]);
      assert Clean(tokens) == head + rest;
      assert QuotedTokens.Quote !in tokens[0] ==> QuotedTokens.Quote !in t;
      if forall k :: 0 <= k < |tokens| ==> QuotedTokens.Quote !in tokens[k] {
        assert forall k :: 0 <= k < |tokens| - 1 ==> tokens[1..][k] == tokens[k + 1];
      }
    }
  }

  /** Cleaning works token by token, so it keeps the order of the tokens. */
  lemma {:induction false} CleanAppend(a: seq<string>, b: seq<string>)
    ensures Clean(a + b) == Clean(a) + Clean(b)
  {
    if |a| > 0 {
      var t := Text.Trim(a[0]);
      var head := if |t| > 0 then [t] else [];
      assert (a + b)[0] == a[0];
      assert (a + b)[1..] == a[1..] + b;
      assert Clean(a + b) == head + Clean(a[1..] + b);
      CleanAppend(a[1..], b);
      assert Clean(a) == head + Clean(a[1..]);
      Seqs.Associative(head, Clean(a[1..]), Clean(b));
    } else {
      assert a + b == b;
    }
  }

  /** A name survives cleaning exactly when it is the non-empty trim of some
      token. */
  lemma {:induction false} CleanMembers(tokens: seq<string>, n: string)
    ensures n in Clean(tokens) <==> |n| > 0 && exists k :: 0 <= k < |tokens| && Text.Trim(tokens[k]) == n
  {
    if |tokens| > 0 {
      CleanMembers(tokens[1..], n);
      if exists k :: 0 <= k < |tokens| && Text.Trim(tokens[k]) == n {
        var k :| 0 <= k < |tokens| && Text.Trim(tokens[k]) == n;
        if k > 0 { assert tokens[1..][k - 1] == tokens[k]; }
      }
      if exists k :: 0 <= k < |tokens| - 1 && Text.Trim(tokens[1..][k]) == n {
        var k :| 0 <= k < |tokens| - 1 && Text.Trim(tokens[1..][k]) == n;
        assert tokens[k + 1] == tokens[1..][k];
      }
    }
  }

  /** Tokens that are already names come through unchanged: in order, with
      repeats kept. */
  lemma {:induction false} CleanKeepsNames(tokens: seq<string>)
    requires forall k :: 0 <= k < |tokens| ==> IsCityName(tokens[k])
    ensures Clean(tokens) == tokens
  {
    if |tokens| > 0 {
      var rest := tokens[1..];
      assert IsCityName(tokens[0]);
      Text.TrimIdempotent(tokens[0]);
      assert forall k :: 0 <= k < |rest| ==> rest[k] == tokens[k + 1];
      CleanKeepsNames(rest);
      assert Clean(tokens) == [tokens[0]] + Clean(rest);
      Seqs.SplitFirst(tokens, tokens[0], rest);
    }
  }

  /** `loadCityNames()`, given the contents of the Dart file. */
  function LoadCityNames(content: string): (r: Result<seq<string>, LoadError>)
    ensures r == Err(ListNotFound) <==> Text.AbsentFrom(content, ListMarker, 0)
    ensures r == Err(ListEndNotFound) <==>
              exists p: nat :: Text.IsFirstOccurrence(content, ListMarker, 0, p)
                               && Text.AbsentFrom(content, ListEnd, p)
    ensures r.Ok? ==> |r.value| > 0 && forall k :: 0 <= k < |r.value| ==> IsCityName(r.value[k])
  {
    match Text.IndexOf(content, ListMarker, 0)
    case None => Err(ListNotFound)
    case Some(listStart) =>
      match Text.IndexOf(content, ListEnd, listStart)
      case None => Err(ListEndNotFound)
      case Some(listEnd) =>
        var tokens := QuotedTokens.Tokens(content[listStart..listEnd]);
        CleanNames(tokens);
        var cities := Clean(tokens);
        if |cities| == 0 then Err(NoNamesParsed) else Ok(cities)
  }

  /** The loader, described without its algorithm: take the text from the
      first marker up to the first `];` at or after it, collect the groups of
      the leftmost non-overlapping matches of `'([^']+)'` in it, trim them and
      drop the empty ones; no name left is an error. */
  lemma LoadCityNamesSpec(content: string, p: nat, q: nat, sp: seq<QuotedTokens.Span>)
    requires Text.IsFirstOccurrence(content, ListMarker, 0, p)
    requires Text.IsFirstOccurrence(content, ListEnd, p, q)
    requires QuotedTokens.LeftmostMatches(content[p..q], 0, sp)
    ensures (QuotedTokens.LeftmostAreMatches(content[p..q], 0, sp);
             var names := Clean(QuotedTokens.Captures(content[p..q], sp));
             LoadCityNames(content) == if |names| == 0 then Err(NoNamesParsed) else Ok(names))
  {
    Text.IndexOfFindsFirst(content, ListMarker, 0, p);
    Text.IndexOfFindsFirst(content, ListEnd, p, q);
    QuotedTokens.LeftmostUnique(content[p..q], 0, sp);
    assert QuotedTokens.Tokens(content[p..q]) == QuotedTokens.Captures(content[p..q], sp);
  }
}
