/**
 * The rule engine of the fast-drop agent: an ordered list of rules on the
 * source address and source port, scanned first-match-wins, with "allow" as the
 * default; and the loader that turns the records of a rule file into that list,
 * keeping the old list when the file cannot be read.
 */
module PacketFilter {
  import opened Types

  /** A filter rule. An absent `ip` or `port` matches every value of that field.
      `ip` is kept as `inet_pton` stores it (network byte order). */
  datatype Rule = Rule(ip: Option<uint32>, port: Option<uint16>, block: bool, comment: string)

  /** The rule applies to a packet from `ip`, `port`. */
  predicate Matches(r: Rule, ip: uint32, port: uint16)
  {
    (r.ip.None? || r.ip.value == ip) && (r.port.None? || r.port.value == port)
  }

  /** The decision of a first-match-wins scan: true means allow. */
  function Verdict(rules: seq<Rule>, ip: uint32, port: uint16): (allow: bool)
  {
    if rules == [] then true
    else if Matches(rules[0], ip, port) then !rules[0].block
    else Verdict(rules[1..], ip, port)
  }

  /** Rule `i` is the first rule that applies. */
  predicate IsFirstMatch(rules: seq<Rule>, ip: uint32, port: uint16, i: int)
  {
    0 <= i < |rules| && Matches(rules[i], ip, port) &&
    forall j :: 0 <= j < i ==> !Matches(rules[j], ip, port)
  }

  /** The first rule that applies decides: the packet is allowed exactly when
      that rule does not block. */
  lemma {:induction false} FirstMatchDecides(rules: seq<Rule>, ip: uint32, port: uint16, i: int)
    requires IsFirstMatch(rules, ip, port, i)
    ensures Verdict(rules, ip, port) == !rules[i].block
    decreases i
  {
    if i > 0 {
      assert !Matches(rules[0], ip, port);
      FirstMatchDecides(rules[1..], ip, port, i - 1);
    }
  }

  /** When no rule applies the packet is allowed. */
  lemma {:induction false} NoMatchAllows(rules: seq<Rule>, ip: uint32, port: uint16)
    requires forall j :: 0 <= j < |rules| ==> !Matches(rules[j], ip, port)
    ensures Verdict(rules, ip, port)
    decreases |rules|
  {
    if rules != [] {
      assert !Matches(rules[0], ip, port);
      NoMatchAllows(rules[1..], ip, port);
    }
  }

  /** Rules that do not apply have no influence on the decision. */
  lemma {:induction false} NonMatchingPrefixIgnored(prefix: seq<Rule>, rest: seq<Rule>, ip: uint32, port: uint16)
    requires forall j :: 0 <= j < |prefix| ==> !Matches(prefix[j], ip, port)
    ensures Verdict(prefix + rest, ip, port) == Verdict(rest, ip, port)
    decreases |prefix|
  {
    if prefix != [] {
      assert (prefix + rest)[0] == prefix[0];
      assert (prefix + rest)[1..] == prefix[1..] + rest;
      NonMatchingPrefixIgnored(prefix[1..], rest, ip, port);
    } else {
      assert prefix + rest == rest;
    }
  }

  /** A rule with neither address nor port applies to every packet, so the
      rules after it are never consulted. */
  lemma {:induction false} WildcardShadows(prefix: seq<Rule>, w: Rule, after1: seq<Rule>, after2: seq<Rule>, ip: uint32, port: uint16)
    requires w.ip.None? && w.port.None?
    ensures Verdict(prefix + [w] + after1, ip, port) == Verdict(prefix + [w] + after2, ip, port)
    decreases |prefix|
  {
    if prefix == [] {
      assert (prefix + [w] + after1)[0] == w;
      assert (prefix + [w] + after2)[0] == w;
    } else {
      assert (prefix + [w] + after1)[1..] == prefix[1..] + [w] + after1;
      assert (prefix + [w] + after2)[1..] == prefix[1..] + [w] + after2;
      WildcardShadows(prefix[1..], w, after1, after2, ip, port);
    }
  }

  /** The two-rule example: block 10.0.0.1 (`a`), then allow port 80. */
  lemma BlockAddressThenAllowPort(a: uint32, b: uint32, port: uint16)
    requires a != b
    ensures var rules := [Rule(Some(a), None, true, ""), Rule(None, Some(80), false, "")];
      && !Verdict(rules, a, port)
      && Verdict(rules, b, 80)
      && Verdict(rules, b, 81)
  {
  }

  // ---------------------------------------------------------------------------
  // Loading rules
  // ---------------------------------------------------------------------------

  /** One object of the rule file's JSON array, with each key present or absent. */
  datatype Record = Record(ip: Option<string>, port: Option<int>, block: Option<bool>, comment: Option<string>)

  /** The outcome of opening and reading the rule file. */
  datatype RuleFile = CannotOpen | BadJson | Records(items: seq<Record>)

  /** The rule a record becomes, or None when its `ip` is present but not a
      dotted quad (`parseIp` stands for `inet_pton`). A missing `block` means
      block, the port keeps its low 16 bits, and a missing comment is empty. */
  function RuleOf(rec: Record, parseIp: string -> Option<uint32>): (r: Option<Rule>)
    ensures r.None? <==> rec.ip.Some? && parseIp(rec.ip.value).None?
    ensures r.Some? ==> rec.ip.Some? ==> r.value.ip == parseIp(rec.ip.value)
    ensures r.Some? ==> rec.ip.None? ==> r.value.ip.None?
    ensures r.Some? ==> (r.value.port.Some? <==> rec.port.Some?)
    ensures r.Some? && rec.port.Some? ==> (rec.port.value - r.value.port.value) % 0x1_0000 == 0
    ensures r.Some? ==> (r.value.block <==> rec.block != Some(false))
    ensures r.Some? ==> r.value.comment == if rec.comment.Some? then rec.comment.value else ""
  {
    if rec.ip.Some? && parseIp(rec.ip.value).None? then None
    else
      Some(Rule(
        if rec.ip.Some? then parseIp(rec.ip.value) else None,
        if rec.port.Some? then Some(ToUint16(rec.port.value)) else None,
        if rec.block.Some? then rec.block.value else true,
        if rec.comment.Some? then rec.comment.value else ""))
  }

  /** The rules the records become, in record order, skipping bad addresses. */
  function RulesOf(items: seq<Record>, parseIp: string -> Option<uint32>): (rules: seq<Rule>)
    decreases |items|
  {
    if items == [] then []
    else
      var head := match RuleOf(items[0], parseIp) case Some(r) => [r] case None => [];
      head + RulesOf(items[1..], parseIp)
  }

  /** Loading follows the record order: the rules of two consecutive runs of
      records are the rules of the first run followed by those of the second. */
  lemma {:induction false} RulesOfAppend(a: seq<Record>, b: seq<Record>, parseIp: string -> Option<uint32>)
    ensures RulesOf(a + b, parseIp) == RulesOf(a, parseIp) + RulesOf(b, parseIp)
    decreases |a|
  {
    if a != [] {
      assert (a + b)[0] == a[0];
      assert (a + b)[1..] == a[1..] + b;
      RulesOfAppend(a[1..], b, parseIp);
    } else {
      assert a + b == b;
    }
  }

  /** Records without a bad address all become rules: one rule per record, in
      the same order. */
  lemma {:induction false} AllValidKept(items: seq<Record>, parseIp: string -> Option<uint32>)
    requires forall j :: 0 <= j < |items| ==> RuleOf(items[j], parseIp).Some?
    ensures |RulesOf(items, parseIp)| == |items|
    ensures forall j :: 0 <= j < |items| ==> RulesOf(items, parseIp)[j] == RuleOf(items[j], parseIp).value
    decreases |items|
  {
    if items != [] {
      assert RuleOf(items[0], parseIp).Some?;
      AllValidKept(items[1..], parseIp);
      forall j | 0 <= j < |items| ensures RulesOf(items, parseIp)[j] == RuleOf(items[j], parseIp).value {
        if j > 0 {
          assert items[1..][j - 1] == items[j];
        }
      }
    }
  }

  /** Every rule loaded comes from a record, and the list is never longer than the records. */
  lemma {:induction false} LoadedRulesComeFromRecords(items: seq<Record>, parseIp: string -> Option<uint32>)
    ensures |RulesOf(items, parseIp)| <= |items|
    ensures forall r :: r in RulesOf(items, parseIp) ==> exists j :: 0 <= j < |items| && RuleOf(items[j], parseIp) == Some(r)
    decreases |items|
  {
    if items != [] {
      LoadedRulesComeFromRecords(items[1..], parseIp);
      forall r | r in RulesOf(items, parseIp)
        ensures exists j :: 0 <= j < |items| && RuleOf(items[j], parseIp) == Some(r)
      {
        if r in RulesOf(items[1..], parseIp) {
          var j :| 0 <= j < |items[1..]| && RuleOf(items[1..][j], parseIp) == Some(r);
          assert items[1..][j] == items[j + 1];
        } else {
          assert RuleOf(items[0], parseIp) == Some(r);
        }
      }
    }
  }

  // ---------------------------------------------------------------------------
  // Rule listing
  // ---------------------------------------------------------------------------

  /** The decimal digits of n, as `{}` formats an int. */
  function Decimal(n: nat): (s: string)
    ensures |s| >= 1
    ensures forall k :: 0 <= k < |s| ==> '0' <= s[k] <= '9'
    ensures s[0] == '0' ==> n == 0
    decreases n
  {
    if n < 10 then [('0' as int + n) as char]
    else Decimal(n / 10) + [('0' as int + n % 10) as char]
  }

  /** The number a string of decimal digits stands for. */
  function DecimalValue(s: string): (n: nat)
    requires forall k :: 0 <= k < |s| ==> '0' <= s[k] <= '9'
    decreases |s|
  {
    if s == [] then 0
    else DecimalValue(s[..|s| - 1]) * 10 + (s[|s| - 1] as int - '0' as int)
  }

  /** Printing an index loses nothing: its digits read back as the index. */
  lemma {:induction false} DecimalRoundTrip(n: nat)
    ensures DecimalValue(Decimal(n)) == n
    decreases n
  {
    if n >= 10 {
      var s := Decimal(n);
      assert s[..|s| - 1] == Decimal(n / 10);
      DecimalRoundTrip(n / 10);
    }
  }

  const NoComment := "(No comment)"
  const ListFooter := "==============================================================="

  /** The line printed for rule number `idx`: "- Rule ", the index, ": " and the
      comment, or "(No comment)" when the comment is empty. */
  function RuleLine(idx: nat, r: Rule): (line: string)
    ensures var tail := if r.comment != "" then r.comment else NoComment;
      |line| == 9 + |Decimal(idx)| + |tail| &&
      line[..7] == "- Rule " && line[7..7 + |Decimal(idx)|] == Decimal(idx) &&
      line[7 + |Decimal(idx)|..9 + |Decimal(idx)|] == ": " && line[9 + |Decimal(idx)|..] == tail
  {
    "- Rule " + Decimal(idx) + ": " + (if r.comment != "" then r.comment else NoComment)
  }

  /** The lines `print_rules_comments` logs: a heading with the rule count, one
      line per rule numbered from 0 with its comment, or "(No comment)" when the
      comment is empty, and a closing rule. */
  function CommentLines(rules: seq<Rule>): (lines: seq<string>)
    ensures |lines| == |rules| + 2
    ensures lines[0] == "==== Packet Filter Rules Comments (Total: " + Decimal(|rules|) + ") ===="
    ensures lines[|rules| + 1] == ListFooter
    ensures forall i :: 0 <= i < |rules| ==>
      var line := lines[i + 1];
      var tail := if rules[i].comment != "" then rules[i].comment else NoComment;
      |line| == 9 + |Decimal(i)| + |tail| &&
      line[..7] == "- Rule " && line[7..7 + |Decimal(i)|] == Decimal(i) &&
      line[7 + |Decimal(i)|..9 + |Decimal(i)|] == ": " && line[9 + |Decimal(i)|..] == tail
  {
    ["==== Packet Filter Rules Comments (Total: " + Decimal(|rules|) + ") ===="]
    + seq(|rules|, i requires 0 <= i < |rules| => RuleLine(i, rules[i]))
    + [ListFooter]
  }

  // ---------------------------------------------------------------------------
  // The filter object
  // ---------------------------------------------------------------------------

  /** `dpdk_packet_filter`: the rule list it holds. */
  class Filter {
    var rules: seq<Rule>

    constructor ()
      ensures rules == []
    {
      rules := [];
    }

    /** `match(ip, port, is_tcp)`: scans the rules in order and returns `!block`
        of the first that applies, or true if none does. `isTcp` plays no part,
        and the rules are only read. */
    method Match(ip: uint32, port: uint16, isTcp: bool) returns (allow: bool)
      ensures allow == Verdict(rules, ip, port)
      ensures rules == [] ==> allow
    {
      var i := 0;
      while i < |rules|
        invariant 0 <= i <= |rules|
        invariant Verdict(rules[i..], ip, port) == Verdict(rules, ip, port)
      {
        var rule := rules[i];
        assert rules[i..][0] == rule && rules[i..][1..] == rules[i + 1..];
        if rule.ip.Some? && rule.ip.value != ip {
          i := i + 1;
          continue;
        }
        if rule.port.Some? && rule.port.value != port {
          i := i + 1;
          continue;
        }
        return !rule.block;
      }
      return true;
    }

    /** `load_rules`: a file that cannot be opened or parsed leaves the rules as
        they were and gives false; otherwise the rules are cleared and rebuilt
        from the records in order, skipping those with a bad address, and the
        result is true even when every record was skipped. */
    method LoadRules(file: RuleFile, parseIp: string -> Option<uint32>) returns (ok: bool)
      modifies this
      ensures ok <==> file.Records?
      ensures !ok ==> rules == old(rules)
      ensures ok ==> rules == RulesOf(file.items, parseIp)
    {
      if file.CannotOpen? {
        return false;
      }
      if file.BadJson? {
        return false;
      }
      var items := file.items;
      rules := [];
      var i := 0;
      while i < |items|
        invariant 0 <= i <= |items|
        invariant rules == RulesOf(items[..i], parseIp)
      {
        var item := items[i];
        RulesOfAppend(items[..i], [item], parseIp);
        assert items[..i + 1] == items[..i] + [item];
        i := i + 1;
        var rule := Rule(None, None, true, "");
        if item.ip.Some? {
          var addr := parseIp(item.ip.value);
          if addr.None? {
            continue;
          }
          rule := rule.(ip := addr);
        }
        if item.port.Some? {
          rule := rule.(port := Some(ToUint16(item.port.value)));
        }
        rule := rule.(block := if item.block.Some? then item.block.value else true);
        if item.comment.Some? {
          rule := rule.(comment := item.comment.value);
        }
        rules := rules + [rule];
      }
      assert items[..|items|] == items;
      return true;
    }
  }
}
