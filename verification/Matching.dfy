/** What the matchers of the engine mean: domains by their labels, windows by the day they divide, names
    by their letters. */
module Matching {
  import opened Text
  import opened Ir
  import opened Engine

  // ----- domains -----

  /** The labels of a domain name. */
  function Labels(name: string): seq<string> { Split(name, '.') }

  predicate EndsIn(labels: seq<string>, last: seq<string>) {
    |last| <= |labels| && labels[|labels| - |last|..] == last
  }

  lemma {:induction false} LabelsDetermine(a: string, b: string)
    ensures Labels(a) == Labels(b) <==> a == b
  {
    JoinSplit(a, '.');
    JoinSplit(b, '.');
  }

  lemma SuffixIsLabels(target: string, bare: string)
    ensures target == bare || EndsWith(target, "." + bare) <==> EndsIn(Labels(target), Labels(bare))
  {
    hide Split;
    var t, b := Labels(target), Labels(bare);
    LabelsDetermine(target, bare);
    if EndsWith(target, "." + bare) {
      var front := target[..|target| - |bare| - 1];
      assert target == front + ['.'] + bare;
      SplitAppend(front, bare, '.');
    }
    if EndsIn(t, b) && |t| > |b| {
      var front := t[..|t| - |b|];
      assert t == front + b;
      JoinAppend(front, b, '.');
      JoinSplit(target, '.');
      JoinSplit(bare, '.');
      hide Join;
      assert target == Join(front, '.') + ['.'] + bare;
    }
  }

  /** An entry with a leading dot matches exactly the names whose last labels are its own, and any other
      entry the name itself; case, blanks around the entry and a dot behind the host do not matter. */
  lemma DomainsExactly(host: string, domains: seq<string>)
    ensures var target := DropTrailingDot(Lower(host));
            MatchesDomain(host, domains) <==>
              exists raw :: raw in domains && Lower(Trim(raw)) != "" &&
                var entry := Lower(Trim(raw));
                if entry[0] == '.' then EndsIn(Labels(target), Labels(entry[1..])) else Labels(target) == Labels(entry)
  {
    var target := DropTrailingDot(Lower(host));
    forall raw | raw in domains && Lower(Trim(raw)) != ""
      ensures var entry := Lower(Trim(raw));
              MatchesEntry(target, raw)
              <==> if entry[0] == '.' then EndsIn(Labels(target), Labels(entry[1..]))
                   else Labels(target) == Labels(entry)
    {
      var entry := Lower(Trim(raw));
      LabelsDetermine(target, entry);
      if entry[0] == '.' {
        assert entry == "." + entry[1..];
        SuffixIsLabels(target, entry[1..]);
      }
      hide Lower, Trim, Labels, EndsIn;
    }
    hide Lower, Trim, Labels, EndsIn, DropTrailingDot, EndsWith;
  }

  lemma FoldedTwice(s: string)
    ensures Lower(Upper(s)) == Lower(s) && Lower(Lower(s)) == Lower(s)
  {
  }

  /** Writing the host in capitals, or with the dot of the root behind it, changes nothing. */
  lemma HostFormDoesNotMatter(host: string, domains: seq<string>)
    ensures MatchesDomain(Upper(host), domains) <==> MatchesDomain(host, domains)
    ensures host != "" && host[|host| - 1] != '.' ==>
              (MatchesDomain(host + ".", domains) <==> MatchesDomain(host, domains))
  {
    FoldedTwice(host);
    if host != "" && host[|host| - 1] != '.' {
      assert Lower(host + ".") == Lower(host) + ".";
      assert DropTrailingDot(Lower(host) + ".") == Lower(host) == DropTrailingDot(Lower(host));
    }
    hide MatchesEntry, Lower, Upper;
  }

  // ----- windows -----

  predicate OnDay(days: seq<Weekday>, at: Moment) { at.day < 7 && WEEKDAY_BY_INDEX[at.day] in days }

  /** A window and the one with its bounds exchanged divide each listed day between them: at every moment of
      the day exactly one of them holds, the minute of a start belonging to the window it starts. */
  lemma WindowsDivideTheDay(days: seq<Weekday>, a: int, b: int, at: Moment)
    requires a != b
    ensures var one, other := MatchesSchedule(Window(days, a, b), at), MatchesSchedule(Window(days, b, a), at);
            && (OnDay(days, at) <==> one || other)
            && !(one && other)
            && (OnDay(days, at) && a == at.hours * 60 + at.minutes ==> one)
            && (OnDay(days, at) && a < b && one ==> a <= at.hours * 60 + at.minutes <= b)
  {
  }

  /** The days of the week, counted from Sunday. */
  lemma WeekStartsOnSunday(days: seq<Weekday>, a: int, b: int, at: Moment)
    requires a < b && MatchesSchedule(Window(days, a, b), at)
    ensures match at.day
            case 0 => Sun in days case 1 => Mon in days case 2 => Tue in days case 3 => Wed in days
            case 4 => Thu in days case 5 => Fri in days case 6 => Sat in days case _ => false
  {
  }

  // ----- users -----

  /** Names are compared without regard to case, and a reference to a user of one provider is met by
      identities of that provider only. */
  lemma UsersExactly(users: seq<UserRef>, identity: RequestIdentity)
    ensures identity.username.Some? ==>
              var capitals := identity.(username := Some(Upper(identity.username.value)));
              (MatchesUser(users, identity) <==> MatchesUser(users, capitals))
    ensures MatchesUser(users, identity) ==> MatchesUsername(NamesFor(users, identity.providerKey), identity.username)
    ensures MatchesUsername(NamesFor(users, identity.providerKey), identity.username) ==> MatchesUser(users, identity)
  {
    if identity.username.Some? { FoldedTwice(identity.username.value); }
    NamesForAre(users, identity.providerKey);
    hide Lower, Upper, NamesFor;
    if MatchesUser(users, identity) {
      var u :| u in users && Lower(u.username) == Lower(identity.username.value)
               && (u.providerKey == None || u.providerKey == identity.providerKey);
      assert u.username in NamesFor(users, identity.providerKey);
    }
  }

  /** The names an identity of the provider can go by: those of references that name it or no provider. */
  function NamesFor(users: seq<UserRef>, providerKey: Option<string>): seq<string> {
    if users == [] then []
    else
      var others := NamesFor(users[1..], providerKey);
      match users[0].providerKey
      case None => [users[0].username] + others
      case Some(k) => if providerKey == Some(k) then [users[0].username] + others else others
  }

  lemma {:induction false} NamesForAre(users: seq<UserRef>, providerKey: Option<string>)
    ensures forall n :: n in NamesFor(users, providerKey) <==>
              (exists u :: u in users && u.username == n && (u.providerKey == None || u.providerKey == providerKey))
  {
    if users != [] {
      NamesForAre(users[1..], providerKey);
      assert forall u :: u in users <==> u == users[0] || u in users[1..];
    }
  }
}
