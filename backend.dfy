/** The Flask backend: the feature encoder in front of the severity model, and the user
    table and prediction log behind the register, login and predict routes. */
module Backend {
  import opened Common

  // ---------------------------------------------------------------------------------------
  // Feature encoding (preprocess_input)

  /** One request record. Every value is kept as the text the client sent; the numeric
      fields are handed on to a numeric coercion that is not modelled. */
  datatype RawRecord = RawRecord(
    roadType: string, numLanes: string, curvature: string, speedLimit: string,
    lighting: string, weather: string, roadSignsPresent: string, publicRoad: string,
    timeOfDay: string, holiday: string, schoolSeason: string, numReportedAccidents: string)

  /** A feature value: a missing value (pandas NaN), an integer, a numeric field passed to
      the coercion, or the sine / cosine of the time-of-day phase 2*pi*n/3. */
  datatype Feature = Missing | Int(value: int) | Numeric(raw: string) | TimeSin(phase: nat) | TimeCos(phase: nat)

  datatype Column = Column(name: string, value: Feature)

  /** The columns handed to the model, in this order. */
  const FinalCols: seq<string> := [
    "num_lanes", "curvature", "speed_limit", "road_signs_present",
    "public_road", "holiday", "school_season", "num_reported_accidents",
    "rt_highway", "rt_rural", "rt_urban",
    "lt_daylight", "lt_dim", "lt_night",
    "wtr_clear", "wtr_foggy", "wtr_rainy",
    "time_sin", "time_cos"
  ]

  const RoadTypes: seq<string> := ["highway", "rural", "urban"]
  const Lightings: seq<string> := ["daylight", "dim", "night"]
  const Weathers: seq<string> := ["clear", "foggy", "rainy"]
  const TimeOrder: seq<string> := ["morning", "afternoon", "evening"]

  /** `.map({"Yes": 1, "No": 0})`: any other value is not in the map and becomes NaN. */
  function BinFlag(v: string): (f: Feature)
    ensures f == Int(1) <==> v == "Yes"
    ensures f == Int(0) <==> v == "No"
    ensures f == Missing <==> v != "Yes" && v != "No"
  {
    if v == "Yes" then Int(1) else if v == "No" then Int(0) else Missing
  }

  /** `(column == category).astype(int)`: an exact, case-sensitive comparison. */
  function Indicator(v: string, category: string): (f: Feature)
    ensures f == Int(1) <==> v == category
    ensures f == Int(0) <==> v != category
  {
    if v == category then Int(1) else Int(0)
  }

  function LowerChar(c: char): (r: char) {
    if 'A' <= c <= 'Z' then (c as int + 32) as char else c
  }

  /** `.str.lower()` on the letters A-Z. */
  function Lower(s: string): (r: string)
    ensures |r| == |s|
    ensures forall i :: 0 <= i < |s| ==> r[i] == LowerChar(s[i])
  {
    if s == [] then [] else [LowerChar(s[0])] + Lower(s[1..])
  }

  /** `time_map`: the position of an already lower-cased name in TimeOrder, followed by
      `.fillna(0)` for a name that is not there. */
  function TimeIndex(t: string): (n: nat)
    ensures n < |TimeOrder|
    ensures 0 < n ==> TimeOrder[n] == t
    ensures n == 0 <==> t !in TimeOrder[1..]
  {
    if t == "morning" then 0 else if t == "afternoon" then 1 else if t == "evening" then 2 else 0
  }

  /** The phase n of the time-of-day columns: the position of the lower-cased name in
      TimeOrder, and 0 for a name that is not there. */
  function TimeNum(timeOfDay: string): (n: nat)
    ensures n < |TimeOrder|
    ensures 0 < n ==> Lower(timeOfDay) == TimeOrder[n]
    ensures n == 0 <==> Lower(timeOfDay) !in TimeOrder[1..]
  {
    TimeIndex(Lower(timeOfDay))
  }

  /** The indicator columns of one categorical field, one per category, in order. */
  function OneHot(v: string, categories: seq<string>): (values: seq<Feature>)
    ensures |values| == |categories|
    ensures forall k :: 0 <= k < |categories| ==> values[k] == Indicator(v, categories[k])
  {
    if categories == [] then [] else [Indicator(v, categories[0])] + OneHot(v, categories[1..])
  }

  predicate Distinct(categories: seq<string>) {
    forall k, l :: 0 <= k < l < |categories| ==> categories[k] != categories[l]
  }

  /** Over distinct categories at most one indicator is 1, and one is 1 exactly when the
      raw value is one of the categories (an unknown value gives all zeros). */
  lemma OneHotExactlyOne(v: string, categories: seq<string>)
    requires Distinct(categories)
    ensures AtMostOneSet(OneHot(v, categories), 0, |categories|)
    ensures Int(1) in OneHot(v, categories) <==> v in categories
  {
    var values := OneHot(v, categories);
    if v in categories {
      var k :| 0 <= k < |categories| && categories[k] == v;
      assert values[k] == Int(1);
    }
  }

  /** preprocess_input on one record: each model column with the value app.py assigns to
      it, selected in FinalCols order. The numeric fields go to the coercion, the Yes/No
      flags through BinFlag, the categorical fields into one indicator per category, and
      the time of day into the sine and cosine of its phase. */
  function Preprocess(r: RawRecord): (row: seq<Column>)
    ensures |row| == |FinalCols|
    ensures forall i :: 0 <= i < |row| ==> row[i].name == FinalCols[i]
  {
    var n := TimeNum(r.timeOfDay);
    [ Column("num_lanes", Numeric(r.numLanes)),
      Column("curvature", Numeric(r.curvature)),
      Column("speed_limit", Numeric(r.speedLimit)),
      Column("road_signs_present", BinFlag(r.roadSignsPresent)),
      Column("public_road", BinFlag(r.publicRoad)),
      Column("holiday", BinFlag(r.holiday)),
      Column("school_season", BinFlag(r.schoolSeason)),
      Column("num_reported_accidents", Numeric(r.numReportedAccidents)),
      Column("rt_highway", Indicator(r.roadType, "highway")),
      Column("rt_rural", Indicator(r.roadType, "rural")),
      Column("rt_urban", Indicator(r.roadType, "urban")),
      Column("lt_daylight", Indicator(r.lighting, "daylight")),
      Column("lt_dim", Indicator(r.lighting, "dim")),
      Column("lt_night", Indicator(r.lighting, "night")),
      Column("wtr_clear", Indicator(r.weather, "clear")),
      Column("wtr_foggy", Indicator(r.weather, "foggy")),
      Column("wtr_rainy", Indicator(r.weather, "rainy")),
      Column("time_sin", TimeSin(n)),
      Column("time_cos", TimeCos(n)) ]
  }

  /** The values of a row of columns, in order. */
  function ValuesOf(row: seq<Column>): (values: seq<Feature>)
    ensures |values| == |row|
    ensures forall i :: 0 <= i < |row| ==> values[i] == row[i].value
  {
    seq(|row|, i requires 0 <= i < |row| => row[i].value)
  }

  /** The row has a column with this name holding this value. */
  predicate HasColumn(row: seq<Column>, name: string, v: Feature) {
    exists i :: 0 <= i < |row| && row[i] == Column(name, v)
  }

  /** No column name is repeated, so each name designates one column of the row. */
  lemma FinalColsDistinct()
    ensures Distinct(FinalCols)
  {
    forall k, l | 0 <= k < l < |FinalCols|
      ensures FinalCols[k] != FinalCols[l]
    {
      // Length, fifth letter and last letter tell any two names apart.
      var a, b := FinalCols[k], FinalCols[l];
      assert |a| != |b| || a[4] != b[4] || a[|a| - 1] != b[|b| - 1];
    }
  }

  /** The four flags go through the Yes/No map. */
  lemma FlagColumnsByName(r: RawRecord)
    ensures HasColumn(Preprocess(r), "road_signs_present", BinFlag(r.roadSignsPresent))
    ensures HasColumn(Preprocess(r), "public_road", BinFlag(r.publicRoad))
    ensures HasColumn(Preprocess(r), "holiday", BinFlag(r.holiday))
    ensures HasColumn(Preprocess(r), "school_season", BinFlag(r.schoolSeason))
  {
    var row := Preprocess(r);
    assert row[3] == Column("road_signs_present", BinFlag(r.roadSignsPresent));
    assert row[4] == Column("public_road", BinFlag(r.publicRoad));
    assert row[5] == Column("holiday", BinFlag(r.holiday));
    assert row[6] == Column("school_season", BinFlag(r.schoolSeason));
  }

  /** The numeric fields are handed to the coercion as they are. */
  lemma NumericColumnsByName(r: RawRecord)
    ensures HasColumn(Preprocess(r), "num_lanes", Numeric(r.numLanes))
    ensures HasColumn(Preprocess(r), "curvature", Numeric(r.curvature))
    ensures HasColumn(Preprocess(r), "speed_limit", Numeric(r.speedLimit))
    ensures HasColumn(Preprocess(r), "num_reported_accidents", Numeric(r.numReportedAccidents))
  {
    var row := Preprocess(r);
    assert row[0] == Column("num_lanes", Numeric(r.numLanes));
    assert row[1] == Column("curvature", Numeric(r.curvature));
    assert row[2] == Column("speed_limit", Numeric(r.speedLimit));
    assert row[7] == Column("num_reported_accidents", Numeric(r.numReportedAccidents));
  }

  /** The sine and cosine columns carry the phase of the lower-cased time of day. */
  lemma TimeColumnsByName(r: RawRecord)
    ensures HasColumn(Preprocess(r), "time_sin", TimeSin(TimeNum(r.timeOfDay)))
    ensures HasColumn(Preprocess(r), "time_cos", TimeCos(TimeNum(r.timeOfDay)))
  {
    var row := Preprocess(r);
    assert row[17].value == TimeSin(TimeNum(r.timeOfDay));
    assert row[18].value == TimeCos(TimeNum(r.timeOfDay));
  }

  /** Each indicator column compares its field with its own category. */
  lemma IndicatorColumnsByName(r: RawRecord)
    ensures HasColumn(Preprocess(r), "rt_highway", Indicator(r.roadType, "highway"))
    ensures HasColumn(Preprocess(r), "rt_rural", Indicator(r.roadType, "rural"))
    ensures HasColumn(Preprocess(r), "rt_urban", Indicator(r.roadType, "urban"))
    ensures HasColumn(Preprocess(r), "lt_daylight", Indicator(r.lighting, "daylight"))
    ensures HasColumn(Preprocess(r), "lt_dim", Indicator(r.lighting, "dim"))
    ensures HasColumn(Preprocess(r), "lt_night", Indicator(r.lighting, "night"))
    ensures HasColumn(Preprocess(r), "wtr_clear", Indicator(r.weather, "clear"))
    ensures HasColumn(Preprocess(r), "wtr_foggy", Indicator(r.weather, "foggy"))
    ensures HasColumn(Preprocess(r), "wtr_rainy", Indicator(r.weather, "rainy"))
  {
    var row := Preprocess(r);
    assert row[8].value == Indicator(r.roadType, "highway");
    assert row[9].value == Indicator(r.roadType, "rural");
    assert row[10].value == Indicator(r.roadType, "urban");
    assert row[11].value == Indicator(r.lighting, "daylight");
    assert row[12].value == Indicator(r.lighting, "dim");
    assert row[13].value == Indicator(r.lighting, "night");
    assert row[14].value == Indicator(r.weather, "clear");
    assert row[15].value == Indicator(r.weather, "foggy");
    assert row[16].value == Indicator(r.weather, "rainy");
  }

  /** A one-hot encoding over three categories, written out. */
  lemma OneHotOfThree(v: string, categories: seq<string>)
    requires |categories| == 3
    ensures OneHot(v, categories)
      == [Indicator(v, categories[0]), Indicator(v, categories[1]), Indicator(v, categories[2])]
  {
  }

  /** Three columns from lo on holding the indicators of v's categories are its one-hot
      encoding. */
  lemma GroupFromColumns(values: seq<Feature>, lo: nat, v: string, categories: seq<string>)
    requires |categories| == 3 && lo + 3 <= |values|
    requires values[lo] == Indicator(v, categories[0]) && values[lo + 1] == Indicator(v, categories[1])
    requires values[lo + 2] == Indicator(v, categories[2])
    ensures values[lo..lo + 3] == OneHot(v, categories)
  {
    OneHotOfThree(v, categories);
    assert values[lo..lo + 3] == [values[lo], values[lo + 1], values[lo + 2]];
  }

  /** The three indicator groups of the encoded row are the one-hot encodings of road
      type, lighting and weather over their categories. */
  lemma GroupsOfRow(r: RawRecord)
    ensures ValuesOf(Preprocess(r))[8..11] == OneHot(r.roadType, RoadTypes)
    ensures ValuesOf(Preprocess(r))[11..14] == OneHot(r.lighting, Lightings)
    ensures ValuesOf(Preprocess(r))[14..17] == OneHot(r.weather, Weathers)
  {
    var row := Preprocess(r);
    var values := ValuesOf(row);
    assert values[8] == row[8].value && values[9] == row[9].value && values[10] == row[10].value;
    GroupFromColumns(values, 8, r.roadType, RoadTypes);
    assert values[11] == row[11].value && values[12] == row[12].value && values[13] == row[13].value;
    GroupFromColumns(values, 11, r.lighting, Lightings);
    assert values[14] == row[14].value && values[15] == row[15].value && values[16] == row[16].value;
    GroupFromColumns(values, 14, r.weather, Weathers);
  }

  /** The three groups of the encoded row (columns 8-10, 11-13 and 14-16) are one-hot: at
      most one indicator per group is set, and one is set exactly when the field holds one
      of the known values. */
  lemma PreprocessOneHot(r: RawRecord)
    ensures Int(1) in ValuesOf(Preprocess(r))[8..11] <==> r.roadType in RoadTypes
    ensures Int(1) in ValuesOf(Preprocess(r))[11..14] <==> r.lighting in Lightings
    ensures Int(1) in ValuesOf(Preprocess(r))[14..17] <==> r.weather in Weathers
    ensures AtMostOneSet(ValuesOf(Preprocess(r)), 8, 11)
    ensures AtMostOneSet(ValuesOf(Preprocess(r)), 11, 14)
    ensures AtMostOneSet(ValuesOf(Preprocess(r)), 14, 17)
  {
    var values := ValuesOf(Preprocess(r));
    GroupsOfRow(r);
    RoadTypesDistinct();
    LightingsDistinct();
    WeathersDistinct();
    GroupOneHot(values, 8, r.roadType, RoadTypes);
    GroupOneHot(values, 11, r.lighting, Lightings);
    GroupOneHot(values, 14, r.weather, Weathers);
  }

  lemma RoadTypesDistinct() ensures Distinct(RoadTypes) { }
  lemma LightingsDistinct() ensures Distinct(Lightings) { }
  lemma WeathersDistinct() ensures Distinct(Weathers) { }

  /** A group of columns starting at lo that is the one-hot encoding of v. */
  lemma GroupOneHot(values: seq<Feature>, lo: nat, v: string, categories: seq<string>)
    requires lo + |categories| <= |values| && Distinct(categories)
    requires values[lo..lo + |categories|] == OneHot(v, categories)
    ensures Int(1) in values[lo..lo + |categories|] <==> v in categories
    ensures AtMostOneSet(values, lo, lo + |categories|)
  {
    OneHotExactlyOne(v, categories);
    assert AtMostOneSet(values[lo..lo + |categories|], 0, |categories|);
    GroupAtMostOne(values, lo, lo + |categories|);
  }

  /** Among the columns lo..hi-1 at most one is 1. */
  predicate AtMostOneSet(values: seq<Feature>, lo: nat, hi: nat)
    requires lo <= hi <= |values|
  {
    forall k, l :: lo <= k < l < hi && values[k] == Int(1) ==> values[l] == Int(0)
  }

  lemma GroupAtMostOne(values: seq<Feature>, lo: nat, hi: nat)
    requires lo <= hi <= |values|
    requires AtMostOneSet(values[lo..hi], 0, hi - lo)
    ensures AtMostOneSet(values, lo, hi)
  {
    forall k, l | lo <= k < l < hi && values[k] == Int(1)
      ensures values[l] == Int(0)
    {
      assert values[k] == values[lo..hi][k - lo];
      assert values[l] == values[lo..hi][l - lo];
    }
  }

  /** Lower-casing twice is lower-casing once. */
  lemma LowerIdempotent(s: string)
    ensures Lower(Lower(s)) == Lower(s)
  {
  }

  /** The time of day is matched without regard to the case of A-Z. */
  lemma TimeNumIgnoresCase(s: string)
    ensures TimeNum(Lower(s)) == TimeNum(s)
  {
    LowerIdempotent(s);
  }

  /** Worked examples: a capitalised name is recognised, an unknown one reads as morning. */
  lemma CapitalisedEvening()
    ensures TimeNum("Evening") == 2
  {
    assert Lower("Evening") == "evening";
  }

  lemma UnknownTimeIsMorning()
    ensures TimeNum("night") == 0
  {
    assert Lower("night") == "night";
  }

  // ---------------------------------------------------------------------------------------
  // Users (register, login)

  /** A row of the user table; the request's fields may be missing (`data.get` gives None). */
  datatype User = User(name: Option<string>, email: Option<string>, password: Option<string>)

  /** The `user` object of a successful login: the email only. */
  datatype SignedIn = SignedIn(email: Option<string>)

  /** An HTTP reply: status code and the JSON body's status, message and optional user. */
  datatype Reply = Reply(code: nat, status: string, message: string, user: Option<SignedIn>)

  const DuplicateEmail: Reply := Reply(400, "error", "Email already exists", None)
  const Registered: Reply := Reply(200, "success", "Registration successful", None)
  const InvalidLogin: Reply := Reply(401, "error", "Invalid email or password", None)

  function LoginSucceeded(email: Option<string>): (reply: Reply) {
    Reply(200, "success", "Login successful", Some(SignedIn(email)))
  }

  predicate EmailTaken(users: seq<User>, email: Option<string>) {
    exists j :: 0 <= j < |users| && users[j].email == email
  }

  predicate EmailsUnique(users: seq<User>) {
    forall j, k :: 0 <= j < k < |users| ==> users[j].email != users[k].email
  }

  predicate Authenticates(users: seq<User>, email: Option<string>, password: Option<string>) {
    exists j :: 0 <= j < |users| && users[j].email == email && users[j].password == password
  }

  /** register: a duplicate email is refused and the table is left alone; otherwise one
      row is appended at the end. */
  method Register(users: seq<User>, name: Option<string>, email: Option<string>, password: Option<string>)
    returns (reply: Reply, stored: seq<User>)
    ensures EmailTaken(users, email) ==> reply == DuplicateEmail && stored == users
    ensures !EmailTaken(users, email) ==>
      reply == Registered && stored == users + [User(name, email, password)]
    ensures EmailsUnique(users) ==> EmailsUnique(stored)
  {
    var i := 0;
    while i < |users|
      invariant 0 <= i <= |users|
      invariant forall j :: 0 <= j < i ==> users[j].email != email
    {
      if users[i].email == email {
        return DuplicateEmail, users;
      }
      i := i + 1;
    }
    reply := Registered;
    stored := users + [User(name, email, password)];
  }

  /** login: a linear search for a row with both the email and the password. */
  method Login(users: seq<User>, email: Option<string>, password: Option<string>) returns (reply: Reply)
    ensures Authenticates(users, email, password) ==> reply == LoginSucceeded(email)
    ensures !Authenticates(users, email, password) ==> reply == InvalidLogin
  {
    var i := 0;
    while i < |users|
      invariant 0 <= i <= |users|
      invariant forall j :: 0 <= j < i ==> !(users[j].email == email && users[j].password == password)
    {
      if users[i].email == email && users[i].password == password {
        return LoginSucceeded(email);
      }
      i := i + 1;
    }
    reply := InvalidLogin;
  }

  /** A freshly registered user can log in with the password given at registration. */
  lemma RegisteredCanLogIn(users: seq<User>, name: Option<string>, email: Option<string>, password: Option<string>)
    ensures Authenticates(users + [User(name, email, password)], email, password)
  {
    var stored := users + [User(name, email, password)];
    assert stored[|users|] == User(name, email, password);
  }

  /** Appending a row never locks out a user who could log in before. */
  lemma RegistrationKeepsLogins(users: seq<User>, newcomer: User, email: Option<string>, password: Option<string>)
    requires Authenticates(users, email, password)
    ensures Authenticates(users + [newcomer], email, password)
  {
    var j :| 0 <= j < |users| && users[j].email == email && users[j].password == password;
    assert (users + [newcomer])[j] == users[j];
  }

  // ---------------------------------------------------------------------------------------
  // Prediction log (save_history)

  /** save_history: the entry is appended after every earlier entry. */
  method SaveHistory<E>(log: seq<E>, entry: E) returns (updated: seq<E>)
    ensures |updated| == |log| + 1
    ensures updated[..|log|] == log && updated[|log|] == entry
  {
    updated := log + [entry];
  }
}
