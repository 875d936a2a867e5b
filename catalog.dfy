/**
 * The in-memory catalog (src/data/mockVideos.ts): the twelve fixture
 * videos, lookup by id and the case-insensitive text search.
 */
module Catalog {
  import opened Wrappers
  import opened JsString
  import opened Seqs

  /** A playable item. `source` is the provider name (`"youtube"` or
      `"vimeo"`); `views` and `uploadedAt` are optional display labels. */
  datatype Video = Video(
    id: string,
    videoId: string,
    title: string,
    thumbnail: string,
    channel: string,
    duration: string,
    source: string,
    views: Option<string>,
    uploadedAt: Option<string>)

  /** The fixture list `mockVideos`, in its declared order. */
  const MockVideos: seq<Video> := [
    Video("1", "dQw4w9WgXcQ",
          "Como criar interfaces incríveis com React e TypeScript",
          "https://images.unsplash.com/photo-1633356122544-f134324a6cee?w=800&q=80",
          "Dev Academy", "15:32", "youtube", Some("125K"), Some("2 dias atrás")),
    Video("2", "jNQXAC9IVRw",
          "Design Systems: O guia completo para desenvolvedores",
          "https://images.unsplash.com/photo-1558655146-9f40138edfeb?w=800&q=80",
          "UI Master", "28:45", "youtube", Some("89K"), Some("5 dias atrás")),
    Video("3", "ZZ5LpwO-An4",
          "Performance Web: Core Web Vitals explicados",
          "https://images.unsplash.com/photo-1460925895917-afdab827c52f?w=800&q=80",
          "Performance Pro", "22:18", "youtube", Some("67K"), Some("1 semana atrás")),
    Video("4", "9bZkp7q19f0",
          "Tailwind CSS: Do básico ao avançado em 30 minutos",
          "https://images.unsplash.com/photo-1507003211169-0a1dd7228f2d?w=800&q=80",
          "CSS Wizard", "31:22", "youtube", Some("203K"), Some("3 dias atrás")),
    Video("5", "kXYiU_JCYtU",
          "Supabase: Backend completo em minutos",
          "https://images.unsplash.com/photo-1551288049-bebda4e38f71?w=800&q=80",
          "Backend Brasil", "45:10", "youtube", Some("156K"), Some("1 dia atrás")),
    Video("6", "Mus_vwhTCq0",
          "UX Research: Entendendo seu usuário",
          "https://images.unsplash.com/photo-1553877522-43269d4ea984?w=800&q=80",
          "UX Design Lab", "19:55", "youtube", Some("45K"), Some("4 dias atrás")),
    Video("7", "L_jWHffIx5E",
          "TypeScript Avançado: Generics e Utility Types",
          "https://images.unsplash.com/photo-1516321318423-f06f85e504b3?w=800&q=80",
          "TypeScript Pro", "38:42", "youtube", Some("78K"), Some("6 dias atrás")),
    Video("8", "ScMzIvxBSi4",
          "React Query: Gerenciamento de estado server-side",
          "https://images.unsplash.com/photo-1555066931-4365d14bab8c?w=800&q=80",
          "React Masters", "25:30", "youtube", Some("92K"), Some("2 semanas atrás")),
    Video("9", "w7ejDZ8SWv8",
          "Acessibilidade Web: WCAG 2.1 na prática",
          "https://images.unsplash.com/photo-1573164713988-8665fc963095?w=800&q=80",
          "A11y Brasil", "33:15", "youtube", Some("34K"), Some("1 semana atrás")),
    Video("10", "rfscVS0vtbw",
          "Figma para Desenvolvedores: Workflow perfeito",
          "https://images.unsplash.com/photo-1581291518633-83b4ebd1d83e?w=800&q=80",
          "Design to Code", "27:48", "youtube", Some("118K"), Some("3 semanas atrás")),
    Video("11", "PkZNo7MFNFg",
          "Git Avançado: Rebase, Cherry-pick e mais",
          "https://images.unsplash.com/photo-1556075798-4825dfaaf498?w=800&q=80",
          "Git Pro", "42:20", "youtube", Some("67K"), Some("5 dias atrás")),
    Video("12", "Ke90Tje7VS0",
          "Next.js 14: App Router e Server Components",
          "https://images.unsplash.com/photo-1627398242454-45a1465c2479?w=800&q=80",
          "Next Academy", "51:33", "youtube", Some("245K"), Some("4 dias atrás"))
  ]

  /** No two videos share an id. */
  ghost predicate DistinctIds(vs: seq<Video>)
  {
    forall i, j :: 0 <= i < j < |vs| ==> vs[i].id != vs[j].id
  }

  lemma FixtureIdsDistinct()
    ensures DistinctIds(MockVideos)
  {
    var ids := ["1", "2", "3", "4", "5", "6", "7", "8", "9", "10", "11", "12"];
    assert forall i :: 0 <= i < |MockVideos| ==> MockVideos[i].id == ids[i];
    forall i, j | 0 <= i < j < |ids|
      ensures ids[i] != ids[j]
    {
      assert |ids[i]| != |ids[j]| || ids[i][|ids[i]| - 1] != ids[j][|ids[j]| - 1];
    }
  }

  // ---------------------------------------------------------------------
  // getVideoById: `mockVideos.find(video => video.id === id)`

  /** The first video of `vs` whose id is `id`. */
  function FindById(vs: seq<Video>, id: string): (r: Option<Video>)
    ensures r.Some? ==> r.value in vs && r.value.id == id
    ensures r.None? <==> forall v :: v in vs ==> v.id != id
    ensures forall i :: 0 <= i < |vs| && vs[i].id == id && (forall j :: 0 <= j < i ==> vs[j].id != id) ==> r == Some(vs[i])
  {
    if vs == [] then None
    else if vs[0].id == id then Some(vs[0])
    else
      var r := FindById(vs[1..], id);
      assert forall i :: 1 <= i < |vs| ==> vs[1..][i - 1] == vs[i];
      r
  }

  function GetVideoById(id: string): (r: Option<Video>)
  {
    FindById(MockVideos, id)
  }

  /** Ids in the fixture are unique, so looking up a fixture video's id finds
      exactly that video; an id no fixture video has finds nothing. */
  lemma GetVideoByIdFinds(id: string)
    ensures forall v :: v in MockVideos && v.id == id ==> GetVideoById(id) == Some(v)
    ensures GetVideoById(id).None? <==> forall v :: v in MockVideos ==> v.id != id
  {
    FixtureIdsDistinct();
    forall v | v in MockVideos && v.id == id
      ensures GetVideoById(id) == Some(v)
    {
      var i :| 0 <= i < |MockVideos| && MockVideos[i] == v;
      assert forall j :: 0 <= j < i ==> MockVideos[j].id != id;
    }
  }

  // ---------------------------------------------------------------------
  // searchVideos: a case-insensitive substring filter over title and channel

  /** The search condition: the lower-cased query occurs in the lower-cased
      title or in the lower-cased channel name. */
  predicate Matches(v: Video, query: string)
  {
    var q := ToLower(query);
    Includes(ToLower(v.title), q) || Includes(ToLower(v.channel), q)
  }

  /** `vs.filter(video => Matches(video, query))`. */
  function SearchIn(vs: seq<Video>, query: string): (r: seq<Video>)
    ensures IsSubseq(r, vs)
    ensures forall v :: v in r <==> v in vs && Matches(v, query)
  {
    if vs == [] then []
    else if Matches(vs[0], query) then
      var rest := SearchIn(vs[1..], query);
      assert ([vs[0]] + rest)[1..] == rest;
      assert vs == [vs[0]] + vs[1..];
      [vs[0]] + rest
    else
      var rest := SearchIn(vs[1..], query);
      assert vs == [vs[0]] + vs[1..];
      rest
  }

  /** `searchVideos(query)`: the fixture videos that match, in fixture order,
      and every fixture video that matches. */
  function SearchVideos(query: string): (r: seq<Video>)
    ensures IsSubseq(r, MockVideos)
    ensures forall v :: v in r ==> Matches(v, query)
    ensures forall v :: v in MockVideos && Matches(v, query) ==> v in r
  {
    SearchIn(MockVideos, query)
  }

  /** Every string includes `""`, so the empty query returns the whole
      fixture in its order. */
  lemma SearchEmptyQuery()
    ensures SearchVideos("") == MockVideos
  {
    SearchAllMatch(MockVideos, "");
  }

  lemma {:induction false} SearchAllMatch(vs: seq<Video>, query: string)
    requires query == ""
    ensures SearchIn(vs, query) == vs
  {
    if vs != [] {
      assert ToLower(query) == "";
      IncludesEmpty(ToLower(vs[0].title));
      SearchAllMatch(vs[1..], query);
      assert vs == [vs[0]] + vs[1..];
    }
  }

  /** The query is lower-cased before matching, so a query and its
      lower-cased form find the same videos. */
  lemma SearchCaseInsensitive(query: string)
    ensures SearchVideos(query) == SearchVideos(ToLower(query))
  {
    ToLowerIdempotent(query);
    SearchSameMatches(MockVideos, query, ToLower(query));
  }

  lemma {:induction false} SearchSameMatches(vs: seq<Video>, q1: string, q2: string)
    requires ToLower(q1) == ToLower(q2)
    ensures SearchIn(vs, q1) == SearchIn(vs, q2)
  {
    if vs != [] {
      SearchSameMatches(vs[1..], q1, q2);
    }
  }
}
