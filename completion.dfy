/** String helpers of the command line: deleting the last typed character and
    the candidates and common prefix used for tab completion. */
module Completion {
  import opened Errors

  /** Erasing from `length - 1`: on an empty string that position wraps to the
      largest size value and the erase throws `std::out_of_range`. */
  function DeleteLastSymbol(s: string): (r: Result<string>)
    ensures r.Ok? <==> |s| > 0
    ensures r.Ok? ==> r.value + [s[|s| - 1]] == s
    ensures r.Err? ==> r.error == OutOfRange
  {
    if |s| == 0 then Err(OutOfRange) else Ok(s[..|s| - 1])
  }

  /** `c.substr(0, |prefix|)` equals `prefix`: the command starts with it. */
  predicate HasPrefix(prefix: string, c: string) {
    |prefix| <= |c| && c[..|prefix|] == prefix
  }

  /** Reference definition: the commands that start with the prefix, in order. */
  function WithPrefix(prefix: string, commands: seq<string>): seq<string> {
    if commands == [] then []
    else (if HasPrefix(prefix, commands[0]) then [commands[0]] else [])
         + WithPrefix(prefix, commands[1..])
  }

  lemma {:induction false} WithPrefixAppend(prefix: string, commands: seq<string>, c: string)
    ensures WithPrefix(prefix, commands + [c])
         == WithPrefix(prefix, commands) + (if HasPrefix(prefix, c) then [c] else [])
  {
    if commands == [] {
      assert [] + [c] == [c];
    } else {
      assert (commands + [c])[1..] == commands[1..] + [c];
      WithPrefixAppend(prefix, commands[1..], c);
    }
  }

  /** Exactly the commands having the prefix are kept. */
  lemma {:induction false} WithPrefixMembers(prefix: string, commands: seq<string>, x: string)
    ensures x in WithPrefix(prefix, commands) <==> x in commands && HasPrefix(prefix, x)
  {
    if commands != [] {
      WithPrefixMembers(prefix, commands[1..], x);
      assert commands == [commands[0]] + commands[1..];
    }
  }

  /** Collects, in order, the commands that start with the typed prefix. */
  method GetU(commandPrefix: string, commands: seq<string>) returns (result: seq<string>)
    ensures result == WithPrefix(commandPrefix, commands)
    ensures forall x :: x in result <==> x in commands && HasPrefix(commandPrefix, x)
  {
    result := [];
    var i := 0;
    while i < |commands|
      invariant 0 <= i <= |commands|
      invariant result == WithPrefix(commandPrefix, commands[..i])
    {
      var c := commands[i];
      var sub := if |commandPrefix| <= |c| then c[..|commandPrefix|] else c;
      if commandPrefix == sub {
        result := result + [c];
      }
      WithPrefixAppend(commandPrefix, commands[..i], c);
      assert commands[..i + 1] == commands[..i] + [c];
      i := i + 1;
    }
    assert commands[..i] == commands;
    forall x ensures x in result <==> x in commands && HasPrefix(commandPrefix, x) {
      WithPrefixMembers(commandPrefix, commands, x);
    }
  }

  /** `s` has the character of `last` at position j. */
  predicate AgreesAt(s: string, last: string, j: nat) {
    j < |s| && j < |last| && s[j] == last[j]
  }

  /** Every string of the list has `last[j]` at every position j in [from, to). */
  ghost predicate AllAgree(list: seq<string>, last: string, from: nat, to: nat) {
    forall s, j :: s in list && from <= j < to ==> AgreesAt(s, last, j)
  }

  /** Position p stops the common prefix: the last string ends there, or some
      string ends or differs there. */
  ghost predicate StopsAt(list: seq<string>, last: string, p: nat) {
    p >= |last| || exists s :: s in list && !AgreesAt(s, last, p)
  }

  /** The longest stretch of the last string, from `pos` on, that every string of
      the list shares. `substr(pos, ...)` throws `std::out_of_range` when `pos`
      lies past the end of the last string. */
  method FindMaxPrefixAfterPos(list: seq<string>, pos: nat) returns (r: Result<string>)
    ensures list == [] ==> r == Ok([])
    ensures list != [] ==> (r.Err? <==> pos > |list[|list| - 1]|)
    ensures r.Err? ==> r.error == OutOfRange
    ensures list != [] && r.Ok? ==>
      var last := list[|list| - 1];
      var k := |r.value|;
      && pos + k <= |last|
      && r.value == last[pos..pos + k]
      && AllAgree(list, last, pos, pos + k)
      && StopsAt(list, last, pos + k)
  {
    if |list| == 0 {
      return Ok([]);
    }
    var last := list[|list| - 1];
    var prefixLength := pos;
    while true
      invariant pos <= prefixLength
      invariant pos <= |last| ==> prefixLength <= |last|
      invariant AllAgree(list, last, pos, prefixLength)
      decreases |last| - prefixLength
    {
      if prefixLength >= |last| {
        break;
      }
      var prefixSymbol := last[prefixLength];
      var i := 0;
      while i < |list|
        invariant 0 <= i <= |list|
        invariant forall m :: 0 <= m < i ==> prefixLength < |list[m]| && list[m][prefixLength] == prefixSymbol
      {
        var s := list[i];
        if prefixLength >= |s| || s[prefixLength] != prefixSymbol {
          assert s in list && !AgreesAt(s, last, prefixLength);
          return Ok(last[pos..prefixLength]);
        }
        i := i + 1;
      }
      assert AllAgree(list, last, pos, prefixLength + 1) by {
        forall s, j | s in list && pos <= j < prefixLength + 1
          ensures AgreesAt(s, last, j)
        {
          var m :| 0 <= m < |list| && list[m] == s;
        }
      }
      prefixLength := prefixLength + 1;
    }
    if pos > |last| {
      return Err(OutOfRange);
    }
    return Ok(last[pos..prefixLength]);
  }

  /** Before the end of an agreed stretch no position stops the prefix. */
  lemma NoStopInsideAgreement(list: seq<string>, last: string, pos: nat, k: nat)
    requires pos + k <= |last| && AllAgree(list, last, pos, pos + k)
    ensures forall p :: pos <= p < pos + k ==> !StopsAt(list, last, p)
  {
    forall p | pos <= p < pos + k ensures !StopsAt(list, last, p) {
      forall s | s in list ensures AgreesAt(s, last, p) {
      }
    }
  }

  /** The common prefix is determined uniquely by agreement and maximality. */
  lemma CommonPrefixUnique(list: seq<string>, last: string, pos: nat, k1: nat, k2: nat)
    requires pos + k1 <= |last| && AllAgree(list, last, pos, pos + k1) && StopsAt(list, last, pos + k1)
    requires pos + k2 <= |last| && AllAgree(list, last, pos, pos + k2) && StopsAt(list, last, pos + k2)
    ensures k1 == k2
  {
    NoStopInsideAgreement(list, last, pos, k1);
    NoStopInsideAgreement(list, last, pos, k2);
  }
}
