/** The fixed question bank the app ships with, and what makes a bank well formed. */
module Questions {
  import opened Types

  /** The ten questions, in the order they are declared. */
  const Bank: seq<Question> := [
    Question(1,
      "Según el artículo, ¿cuál es el propósito principal de la sección de Introducción en un artículo científico?",
      [
        Choice("A", "Describir minuciosamente la metodología utilizada para que el estudio sea reproducible"),
        Choice("B", "Interpretar los hallazgos del estudios y compararlos con la literatura previa"),
        Choice("C", "Justificar la necesidad del estudio, identificando una brecha en el conocimiento existente y estableciendo objetivos"),
        Choice("D", "Presentar en detalla los resultados del análisis estadístico")
      ],
      "C"),
    Question(2,
      "¿Qué elemento crucial debe incluirse en la sección de Métodos de un estudio prospectivo que no es un componente de la misma sección en un estudio retrospectivo, según la Tabla 3?",
      [
        Choice("A", "La descripción del análisis estadístico a realizar"),
        Choice("B", "Las consideraciones éticas, como la probacion del comité"),
        Choice("C", "Los criterios de inclusión y no inclusión de los sujetos"),
        Choice("D", "El calculo del tamaño de la muestra")
      ],
      "D"),
    Question(3,
      "Al redactar la sección de Resultados, ¿qué práctica desaconseja el artículo?",
      [
        Choice("A", "Incluir comentarios o interpretaciones como “sorprende mente”"),
        Choice("B", "Presentar los resultados en el mismo orden que los métodos"),
        Choice("C", "Utilizar el tiempo pasado para describir las observaciones realizadas"),
        Choice("D", "Hacer referencia a las tablas y figuras que ilustran los datos")
      ],
      "A"),
    Question(4,
      "¿Cuál es la recomendación del artículo para criticar el trabajo de otros autores en la sección de Discusión?",
      [
        Choice("A", "Criticar explícitamente los trabajos previos para resaltar la superioridad del estudio actual"),
        Choice("B", "Señalar directamente las debilidades metodológicas, como la falta de poder estadístico"),
        Choice("C", "Evitar por completo la comparación con otros estudios para no generar controversia"),
        Choice("D", "Reformular las criticas como fortalezas del propio estudio, implicando las debilidades de otros indirectamente")
      ],
      "D"),
    Question(5,
      "¿Por qué es crucial, según el texto, que el título de un artículo contenga los principales términos y palabras clave?",
      [
        Choice("A", "Para resumir los hallazgos principales del estudio de la manera más concisa posible"),
        Choice("B", "Para evitar el uso de subtítulos, que el articulo desaconseja en la mayoria de los casos"),
        Choice("C", "Para que el trabajo sea fácilmente identificable en búsqueda de bases de datos como PubMed y sea citado por otros"),
        Choice("D", "Para cumplir con el limite de caracteres impuestos por la mayoria de las revistas científicas")
      ],
      "C"),
    Question(6,
      "¿Qué característica esencial debe tener el Resumen (Abstract) de un artículo científico?",
      [
        Choice("A", "Debe contener una sección de discusión que interprete los hallazgos"),
        Choice("B", "Debe incluir referencias a las publicaciones mas importantes citadas en el texto"),
        Choice("C", "Debe ser comprensible como una unidad independiente, sin necesidad de leer el articulo completo"),
        Choice("D", "Debe incluir figuras o tablas pequeñas para visualizar los datos mas importantes")
      ],
      "C"),
    Question(7,
      "Al momento de elegir las referencias bibliográficas, ¿qué tipo de fuente sugiere el artículo priorizar?",
      [
        Choice("A", "Artículos de revisiones porque resumen el conocimiento actual"),
        Choice("B", "Artículos de investigación originales publicados en revistas por pares y en ingles"),
        Choice("C", "Comunicaciones personales y datos no publicados para mostrar originalidad"),
        Choice("D", "Sitios de internet de alta reputación para asegurar la informacion mas reciente")
      ],
      "B"),
    Question(8,
      "¿Cuál es la función de enumerar las limitaciones del estudio en la sección de Discusión?",
      [
        Choice("A", "Demostrar honestidad y permitir al autor defenderse anticipadamente de posible criticas de los revisores"),
        Choice("B", "Llenar espacio para cumplir con la longitud mínima de la sección requerida por la revista"),
        Choice("C", "Indicar que los resultados no son validos y que el estudio debe ser replicado"),
        Choice("D", "Justificar porque los resultados fueron negativos o no concluyentes")
      ],
      "A"),
    Question(9,
      "De acuerdo con el texto, ¿qué se debe hacer antes de escribir la primera palabra del artículo?",
      [
        Choice("A", "Identificar la revista de destino para adaptar el estilo y formato del manuscrito"),
        Choice("B", "Escribir la sección de Discusión para saber que conclusiones se quieren alcanzar"),
        Choice("C", "Crear todas las tablas y figuras que se incluirán en el manuscrito"),
        Choice("D", "Redactar el resumen (abstract) para tener una guia clara de todo el contenido")
      ],
      "A"),
    Question(10,
      "En el contexto de la sección de Métodos, ¿qué información es fundamental incluir respecto a la población de estudio si se trata de sujetos humanos?",
      [
        Choice("A", "Los criterios detallados de inclusión y no inclusión"),
        Choice("B", "Los resultados del objetivo primario para cada subgrupo de la población"),
        Choice("C", "Un análisis demográfico completo con medias y desviaciones estándar"),
        Choice("D", "Únicamente el numero total de pacientes reclutados en el estudio")
      ],
      "A")
  ]

  /** The id of the correct choice of each question, in bank order. */
  const AnswerKey: seq<string> := ["C", "D", "A", "D", "C", "C", "B", "A", "A", "A"]

  /** The choice ids every question of the bank offers, in display order. */
  const ChoiceLetters: seq<string> := ["A", "B", "C", "D"]

  function ChoiceIds(choices: seq<Choice>): (r: seq<string>)
    ensures |r| == |choices|
    ensures forall k :: 0 <= k < |choices| ==> r[k] == choices[k].id
  {
    seq(|choices|, k requires 0 <= k < |choices| => choices[k].id)
  }

  /** How many of the choices carry the id `id`. */
  function CountWithId(choices: seq<Choice>, id: string): nat {
    if |choices| == 0 then 0
    else CountWithId(choices[..|choices| - 1], id) + (if choices[|choices| - 1].id == id then 1 else 0)
  }

  predicate DistinctChoiceIds(choices: seq<Choice>) {
    forall k, l :: 0 <= k < l < |choices| ==> choices[k].id != choices[l].id
  }

  /** A question is well formed when its choice ids are distinct and its
      correct id names exactly one of its choices. */
  predicate WellFormedQuestion(q: Question) {
    DistinctChoiceIds(q.choices) && CountWithId(q.choices, q.correctOptionId) == 1
  }

  /** Question ids are pairwise distinct. */
  predicate DistinctIds(qs: seq<Question>) {
    forall k, l :: 0 <= k < l < |qs| ==> qs[k].id != qs[l].id
  }

  predicate WellFormedBank(qs: seq<Question>) {
    DistinctIds(qs) && forall k :: 0 <= k < |qs| ==> WellFormedQuestion(qs[k])
  }

  /** With distinct choice ids, an id that is carried by some choice is
      carried by exactly one. */
  lemma {:induction false} DistinctIdsCountOne(choices: seq<Choice>, k: nat)
    requires DistinctChoiceIds(choices)
    requires k < |choices|
    ensures CountWithId(choices, choices[k].id) == 1
    decreases |choices|
  {
    var n := |choices| - 1;
    if k == n {
      NoOtherCarrier(choices[..n], choices[k].id);
    } else {
      DistinctIdsCountOne(choices[..n], k);
    }
  }

  lemma {:induction false} NoOtherCarrier(choices: seq<Choice>, id: string)
    requires forall k :: 0 <= k < |choices| ==> choices[k].id != id
    ensures CountWithId(choices, id) == 0
  {
    if |choices| > 0 {
      NoOtherCarrier(choices[..|choices| - 1], id);
    }
  }

  /** The shape of the shipped bank: ten questions with ids 1 to 10 in
      order, each offering the choices A, B, C, D in that order, and the
      answer key C, D, A, D, C, C, B, A, A, A. */
  lemma BankShape()
    ensures |Bank| == 10
    ensures forall k :: 0 <= k < |Bank| ==> Bank[k].id == k + 1
    ensures forall k :: 0 <= k < |Bank| ==> ChoiceIds(Bank[k].choices) == ChoiceLetters
    ensures forall k :: 0 <= k < |Bank| ==> Bank[k].correctOptionId == AnswerKey[k]
  {
  }

  /** The shipped bank is well formed: distinct question ids, and every
      correct id names exactly one choice of its question. */
  lemma BankWellFormed()
    ensures WellFormedBank(Bank)
  {
    BankShape();
    forall k | 0 <= k < |Bank|
      ensures WellFormedQuestion(Bank[k])
    {
      var cs := Bank[k].choices;
      assert ChoiceIds(cs) == ChoiceLetters;
      assert DistinctChoiceIds(cs) by {
        forall a, b | 0 <= a < b < |cs|
          ensures cs[a].id != cs[b].id
        {
          assert cs[a].id == ChoiceLetters[a] && cs[b].id == ChoiceLetters[b];
        }
      }
      var pos := if AnswerKey[k] == "A" then 0 else if AnswerKey[k] == "B" then 1
                 else if AnswerKey[k] == "C" then 2 else 3;
      assert cs[pos].id == Bank[k].correctOptionId;
      DistinctIdsCountOne(cs, pos);
    }
  }
}
